/**
 The text-to-record routines of the GuruFocus summary scraper: header
 normalisation, reading the ticker list, cutting it into batches, and folding
 the rows of the two summary tables into a key/value record. The browser is a
 parameter: a page is whatever the session returned, with the selector
 results already cut out into lists of cell texts.
 */
module GuruFocus {
  import opened Wrappers
  import opened Strings
  import Writes

  // ---------------------------------------------------------------------
  // Header normalisation

  /** No newline, dash, parenthesis, percent or dollar sign. */
  predicate SymbolFree(s: string) {
    '\n' !in s && '-' !in s && '(' !in s && ')' !in s && '%' !in s && '$' !in s
  }

  predicate NoUpper(s: string) {
    forall i | 0 <= i < |s| :: !IsUpper(s[i])
  }

  /** The shape of every dictionary key `clean_title` produces: none of the
      symbols it rewrites, no space, no whitespace at either end, no upper-case
      letter. */
  predicate IsCleanKey(s: string) {
    SymbolFree(s) && ' ' !in s && Stripped(s) && NoUpper(s)
  }

  lemma SymbolFreeReplace(s: string, pat: string, sub: string)
    requires pat != []
    requires SymbolFree(s) && SymbolFree(sub)
    ensures SymbolFree(Replace(s, pat, sub))
  {
    ReplaceKeepsOut(s, pat, sub, '\n');
    ReplaceKeepsOut(s, pat, sub, '-');
    ReplaceKeepsOut(s, pat, sub, '(');
    ReplaceKeepsOut(s, pat, sub, ')');
    ReplaceKeepsOut(s, pat, sub, '%');
    ReplaceKeepsOut(s, pat, sub, '$');
  }

  lemma SymbolFreeStrip(s: string)
    requires SymbolFree(s)
    ensures SymbolFree(Strip(s))
  {
    StripKeepsOut(s, '\n');
    StripKeepsOut(s, '-');
    StripKeepsOut(s, '(');
    StripKeepsOut(s, ')');
    StripKeepsOut(s, '%');
    StripKeepsOut(s, '$');
  }

  lemma SymbolFreeLower(s: string)
    requires SymbolFree(s) && ' ' !in s
    ensures SymbolFree(Lower(s)) && ' ' !in Lower(s)
  {
    LowerKeepsOut(s, '\n');
    LowerKeepsOut(s, '-');
    LowerKeepsOut(s, '(');
    LowerKeepsOut(s, ')');
    LowerKeepsOut(s, '%');
    LowerKeepsOut(s, '$');
    LowerKeepsOut(s, ' ');
  }

  /** The symbol replacements that open `clean_title`'s chain: newlines, `)`,
      `%` and `$` are dropped, `-` becomes `_` and `(` becomes a space. */
  function ScrubSymbols(title: string): (r: string)
    ensures SymbolFree(r)
    ensures |r| <= |title|
    ensures SymbolFree(title) ==> r == title
  {
    var noNewline := Replace(title, "\n", "");
    var noDash := Replace(noNewline, "-", "_");
    ReplaceKeepsOut(noNewline, "-", "_", '\n');
    var noOpen := Replace(noDash, "(", " ");
    ReplaceKeepsOut(noDash, "(", " ", '\n');
    ReplaceKeepsOut(noDash, "(", " ", '-');
    var noClose := Replace(noOpen, ")", "");
    ReplaceKeepsOut(noOpen, ")", "", '\n');
    ReplaceKeepsOut(noOpen, ")", "", '-');
    ReplaceKeepsOut(noOpen, ")", "", '(');
    var noPercent := Replace(noClose, "%", "");
    ReplaceKeepsOut(noClose, "%", "", '\n');
    ReplaceKeepsOut(noClose, "%", "", '-');
    ReplaceKeepsOut(noClose, "%", "", '(');
    ReplaceKeepsOut(noClose, "%", "", ')');
    ReplaceKeepsOut(noPercent, "$", "", '\n');
    ReplaceKeepsOut(noPercent, "$", "", '-');
    ReplaceKeepsOut(noPercent, "$", "", '(');
    ReplaceKeepsOut(noPercent, "$", "", ')');
    ReplaceKeepsOut(noPercent, "$", "", '%');
    Replace(noPercent, "$", "")
  }

  /** `clean_title`: turns a table header into a dictionary key by a fixed
      chain of replacements, one strip and one lower-casing. The result holds
      none of the characters the chain rewrites. */
  function CleanTitle(title: string): (r: string)
    ensures title == [] ==> r == []
    ensures IsCleanKey(r)
    ensures |r| <= |title|
  {
    if title == [] then []
    else
      var scrubbed := ScrubSymbols(title);
      var fewerSpaces := Replace(scrubbed, "  ", " ");
      SymbolFreeReplace(scrubbed, "  ", " ");
      var trimmed := Strip(fewerSpaces);
      SymbolFreeStrip(fewerSpaces);
      UnderscoredClean(trimmed);
      Lower(Replace(trimmed, " ", "_"))
  }

  /** The last two stages turn a symbol-free stripped text into a clean key
      of the same length. */
  lemma UnderscoredClean(trimmed: string)
    requires SymbolFree(trimmed) && Stripped(trimmed)
    ensures IsCleanKey(Lower(Replace(trimmed, " ", "_")))
    ensures |Lower(Replace(trimmed, " ", "_"))| == |trimmed|
  {
    var underscored := Replace(trimmed, " ", "_");
    SymbolFreeReplace(trimmed, " ", "_");
    ReplaceCharPointwise(trimmed, ' ', '_');
    SymbolFreeLower(underscored);
  }

  /** The cleaned titles are exactly the clean keys: cleaning a clean key
      changes nothing, so `clean_title` is idempotent. */
  lemma CleanTitleFixedPoints(key: string)
    ensures CleanTitle(key) == key <==> IsCleanKey(key)
  {
    if IsCleanKey(key) && key != [] {
      assert ScrubSymbols(key) == key;
      assert Replace(key, "  ", " ") == key;
      assert Strip(key) == key;
      assert Replace(key, " ", "_") == key;
    }
  }

  lemma CleanTitleIdempotent(title: string)
    ensures CleanTitle(CleanTitle(title)) == CleanTitle(title)
  {
    CleanTitleFixedPoints(CleanTitle(title));
  }

  /** What the six symbol replacements make of one character: newlines, `)`,
      `%` and `$` vanish, `-` becomes `_`, `(` becomes a space, and every
      other character stays. */
  function ScrubChar(c: char): (r: string)
    ensures SymbolFree(r) && |r| <= 1
    ensures SymbolFree([c]) ==> r == [c]
  {
    if c == '\n' || c == ')' || c == '%' || c == '$' then []
    else if c == '-' then "_"
    else if c == '(' then " "
    else [c]
  }

  /** The title scrubbed one character at a time, left to right. */
  function ScrubEach(title: string): (r: string)
    ensures |r| <= |title|
    decreases |title|
  {
    if title == [] then [] else ScrubChar(title[0]) + ScrubEach(title[1..])
  }

  /** The six replacements each rewrite single characters, so the chain
      distributes over concatenation. */
  lemma ScrubSymbolsAppend(u: string, v: string)
    ensures ScrubSymbols(u + v) == ScrubSymbols(u) + ScrubSymbols(v)
  {
    var u1, v1 := Replace(u, "\n", ""), Replace(v, "\n", "");
    ReplaceCharAppend(u, v, '\n', "");
    var u2, v2 := Replace(u1, "-", "_"), Replace(v1, "-", "_");
    ReplaceCharAppend(u1, v1, '-', "_");
    var u3, v3 := Replace(u2, "(", " "), Replace(v2, "(", " ");
    ReplaceCharAppend(u2, v2, '(', " ");
    var u4, v4 := Replace(u3, ")", ""), Replace(v3, ")", "");
    ReplaceCharAppend(u3, v3, ')', "");
    var u5, v5 := Replace(u4, "%", ""), Replace(v4, "%", "");
    ReplaceCharAppend(u4, v4, '%', "");
    ReplaceCharAppend(u5, v5, '$', "");
  }

  lemma ScrubSymbolsChar(c: char)
    ensures ScrubSymbols([c]) == ScrubChar(c)
  {
    ReplaceCharSingle(c, '\n', "");
    if c != '\n' {
      ReplaceCharSingle(c, '-', "_");
      if c != '-' {
        ReplaceCharSingle(c, '(', " ");
        if c != '(' {
          ReplaceCharSingle(c, ')', "");
          if c != ')' {
            ReplaceCharSingle(c, '%', "");
            if c != '%' {
              ReplaceCharSingle(c, '$', "");
            }
          }
        }
      }
    }
  }

  /** The replacement chain is the character-wise scrub: each character of
      the title is rewritten on its own and the pieces kept in order. */
  lemma {:induction false} ScrubSymbolsEach(title: string)
    ensures ScrubSymbols(title) == ScrubEach(title)
    decreases |title|
  {
    if title != [] {
      assert title == [title[0]] + title[1..];
      ScrubSymbolsAppend([title[0]], title[1..]);
      ScrubSymbolsChar(title[0]);
      ScrubSymbolsEach(title[1..]);
    }
  }

  /** Scrubbing a title with no whitespace and no `(` brings in no whitespace. */
  lemma {:induction false} ScrubEachNoSpace(title: string)
    requires forall i | 0 <= i < |title| :: !IsSpace(title[i]) && title[i] != '('
    ensures forall i | 0 <= i < |ScrubEach(title)| :: !IsSpace(ScrubEach(title)[i])
    decreases |title|
  {
    if title != [] {
      ScrubEachNoSpace(title[1..]);
      var head, rest := ScrubChar(title[0]), ScrubEach(title[1..]);
      forall i | 0 <= i < |head + rest| ensures !IsSpace((head + rest)[i]) {
        if i >= |head| {
          assert (head + rest)[i] == rest[i - |head|];
        }
      }
    }
  }

  /** `clean_title` of a non-empty title, stage by stage. */
  lemma CleanTitleStages(title: string, scrubbed: string, fewer: string, trimmed: string)
    requires title != []
    requires ScrubSymbols(title) == scrubbed
    requires Replace(scrubbed, "  ", " ") == fewer
    requires Strip(fewer) == trimmed
    ensures CleanTitle(title) == Lower(Replace(trimmed, " ", "_"))
  {
  }

  /** A title with no whitespace and no `(` cleans to its character-wise
      scrub, lower-cased: the space handling of the chain has nothing to do. */
  lemma CleanTitleWord(title: string)
    requires forall i | 0 <= i < |title| :: !IsSpace(title[i]) && title[i] != '('
    ensures CleanTitle(title) == Lower(ScrubEach(title))
  {
    if title != [] {
      var x := ScrubEach(title);
      ScrubSymbolsEach(title);
      ScrubEachNoSpace(title);
      assert ' ' !in x;
      assert Stripped(x);
      CleanTitleStages(title, x, x, x);
    }
  }

  /** Scrubbing works piece by piece. */
  lemma {:induction false} ScrubEachAppend(u: string, v: string)
    ensures ScrubEach(u + v) == ScrubEach(u) + ScrubEach(v)
  {
    ScrubSymbolsEach(u + v);
    ScrubSymbolsEach(u);
    ScrubSymbolsEach(v);
    ScrubSymbolsAppend(u, v);
  }

  /** Two words joined by a hyphen clean to the lower-cased words joined by
      an underscore, as `Debt-to-Equity` becomes `debt_to_equity`. */
  lemma CleanTitleHyphenated(w1: string, w2: string)
    requires SymbolFree(w1) && SymbolFree(w2)
    requires forall i | 0 <= i < |w1| :: !IsSpace(w1[i])
    requires forall i | 0 <= i < |w2| :: !IsSpace(w2[i])
    ensures CleanTitle(w1 + "-" + w2) == Lower(w1) + "_" + Lower(w2)
  {
    forall i | 0 <= i < |w1| ensures w1[i] != '(' {
      assert w1[i] in w1;
    }
    forall i | 0 <= i < |w2| ensures w2[i] != '(' {
      assert w2[i] in w2;
    }
    CleanTitleHyphenatedPlain(w1, w2);
  }

  lemma CleanTitleHyphenatedPlain(w1: string, w2: string)
    requires SymbolFree(w1) && SymbolFree(w2)
    requires forall i | 0 <= i < |w1| :: !IsSpace(w1[i]) && w1[i] != '('
    requires forall i | 0 <= i < |w2| :: !IsSpace(w2[i]) && w2[i] != '('
    ensures CleanTitle(w1 + "-" + w2) == Lower(w1) + "_" + Lower(w2)
  {
    var title := w1 + "-" + w2;
    HyphenatedPlain(w1, w2);
    CleanTitleWord(title);
    HyphenatedScrub(w1, w2);
    LowerAppend(w1 + "_", w2);
    LowerAppend(w1, "_");
    assert Lower("_") == "_";
  }

  lemma HyphenatedPlain(w1: string, w2: string)
    requires forall i | 0 <= i < |w1| :: !IsSpace(w1[i]) && w1[i] != '('
    requires forall i | 0 <= i < |w2| :: !IsSpace(w2[i]) && w2[i] != '('
    ensures forall i | 0 <= i < |w1 + "-" + w2| :: !IsSpace((w1 + "-" + w2)[i]) && (w1 + "-" + w2)[i] != '('
  {
    var title := w1 + "-" + w2;
    forall i | 0 <= i < |title| ensures !IsSpace(title[i]) && title[i] != '(' {
      if i < |w1| {
        assert title[i] == w1[i];
      } else if i > |w1| {
        assert title[i] == w2[i - |w1| - 1];
      }
    }
  }

  lemma HyphenatedScrub(w1: string, w2: string)
    requires SymbolFree(w1) && SymbolFree(w2)
    ensures ScrubEach(w1 + "-" + w2) == w1 + "_" + w2
  {
    ScrubEachAppend(w1 + "-", w2);
    ScrubEachAppend(w1, "-");
    ScrubSymbolsEach(w1);
    ScrubSymbolsEach(w2);
    ScrubSymbolsEach("-");
    ScrubSymbolsChar('-');
  }

  /** The as-written effect of the single `"  " -> " "` pass: between two clean
      words, a run of `n` spaces becomes `(n + 1) / 2` underscores, so three
      spaces leave two underscores and not one. */
  lemma CleanTitleSpacedWords(w1: string, n: nat, w2: string)
    requires w1 != [] && w2 != [] && IsCleanKey(w1) && IsCleanKey(w2)
    ensures CleanTitle(w1 + Repeat(' ', n) + w2) == w1 + Repeat('_', (n + 1) / 2) + w2
  {
    var k := (n + 1) / 2;
    var title := w1 + Repeat(' ', n) + w2;
    var fewer := w1 + Repeat(' ', k) + w2;
    SpacedWordsShape(w1, n, w2);
    SpacedWordsShape(w1, k, w2);
    SpacedWordsCollapse(w1, n, w2);
    CleanTitleStages(title, title, fewer, fewer);
    SpacesUnderscored(w1, k, w2);
  }

  /** Two clean words around a run of spaces: no symbol, and no whitespace at
      either end. */
  lemma SpacedWordsShape(w1: string, n: nat, w2: string)
    requires w1 != [] && w2 != [] && IsCleanKey(w1) && IsCleanKey(w2)
    ensures ScrubSymbols(w1 + Repeat(' ', n) + w2) == w1 + Repeat(' ', n) + w2
    ensures Strip(w1 + Repeat(' ', n) + w2) == w1 + Repeat(' ', n) + w2
  {
    var title := w1 + Repeat(' ', n) + w2;
    assert SymbolFree(title);
    assert Stripped(title);
  }

  /** The `"  " -> " "` stage on two space-free words around a run of spaces. */
  lemma SpacedWordsCollapse(w1: string, n: nat, w2: string)
    requires ' ' !in w1 && ' ' !in w2
    ensures Replace(w1 + Repeat(' ', n) + w2, "  ", " ") == w1 + Repeat(' ', (n + 1) / 2) + w2
  {
    assert w1 + Repeat(' ', n) + w2 == w1 + (Repeat(' ', n) + w2);
    ReplaceSkip(w1, Repeat(' ', n) + w2, "  ", " ");
    ReplaceDoubleSpaceRun(n, w2);
    assert Replace(w2, "  ", " ") == w2;
  }

  /** The last two stages of the chain on two clean words around a run of
      spaces: each space becomes an underscore and the case is kept. */
  lemma SpacesUnderscored(w1: string, k: nat, w2: string)
    requires IsCleanKey(w1) && IsCleanKey(w2)
    ensures Lower(Replace(w1 + Repeat(' ', k) + w2, " ", "_")) == w1 + Repeat('_', k) + w2
  {
    var under := w1 + Repeat('_', k) + w2;
    assert Replace(w1 + Repeat(' ', k) + w2, " ", "_") == under by {
      ReplaceCharAppend(w1 + Repeat(' ', k), w2, ' ', "_");
      ReplaceCharAppend(w1, Repeat(' ', k), ' ', "_");
      ReplaceRepeat(' ', '_', k);
    }
    LowerAppend(w1 + Repeat('_', k), w2);
    LowerAppend(w1, Repeat('_', k));
  }

  // ---------------------------------------------------------------------
  // The ticker list

  /** The comprehension `[t.strip() for t in lines if t.strip()]`. */
  function KeepNonBlank(lines: seq<string>): (r: seq<string>)
    ensures |r| <= |lines|
    ensures forall i | 0 <= i < |r| :: r[i] != [] && Stripped(r[i])
    decreases |lines|
  {
    if lines == [] then []
    else
      var t := Strip(lines[0]);
      (if t != [] then [t] else []) + KeepNonBlank(lines[1..])
  }

  /** A line is kept, stripped, exactly when it is not blank. */
  lemma {:induction false} KeepNonBlankMembers(lines: seq<string>, t: string)
    ensures t in KeepNonBlank(lines) <==> t != [] && exists l | l in lines :: Strip(l) == t
    decreases |lines|
  {
    if lines != [] {
      KeepNonBlankMembers(lines[1..], t);
      var head := Strip(lines[0]);
      assert KeepNonBlank(lines) == (if head != [] then [head] else []) + KeepNonBlank(lines[1..]);
      if t in KeepNonBlank(lines) && !(head != [] && t == head) {
        var l :| l in lines[1..] && Strip(l) == t;
        assert l in lines;
      }
      if t != [] && exists l | l in lines :: Strip(l) == t {
        var l :| l in lines && Strip(l) == t;
        if l != lines[0] {
          assert l in lines[1..];
        }
      }
    }
  }

  /** Blank lines drop out without disturbing the order of the rest. */
  lemma {:induction false} KeepNonBlankAppend(a: seq<string>, b: seq<string>)
    ensures KeepNonBlank(a + b) == KeepNonBlank(a) + KeepNonBlank(b)
    decreases |a|
  {
    if a != [] {
      assert (a + b)[0] == a[0];
      assert (a + b)[1..] == a[1..] + b;
      KeepNonBlankAppend(a[1..], b);
    } else {
      assert a + b == b;
    }
  }

  /** `get_tickers` over the content of the ticker file; `None` stands for a
      file that could not be read, which the source reports and answers with
      an empty list. */
  function GetTickers(content: Option<string>): (r: seq<string>)
    ensures content.None? ==> r == []
    ensures forall i | 0 <= i < |r| :: r[i] != [] && Stripped(r[i])
    ensures content.Some? ==> |r| <= |Lines(content.value, SplitLines)|
  {
    match content
    case None => []
    case Some(text) => KeepNonBlank(Lines(text, SplitLines))
  }

  /** The tickers are exactly the stripped non-blank lines of the file. */
  lemma GetTickersExact(text: string, t: string)
    ensures t in GetTickers(Some(text))
        <==> t != [] && exists l | l in Lines(text, SplitLines) :: Strip(l) == t
  {
    KeepNonBlankMembers(Lines(text, SplitLines), t);
  }

  /** No ticker holds a line break. */
  lemma GetTickersHaveNoBreaks(text: string)
    ensures forall t, i | t in GetTickers(Some(text)) && 0 <= i < |t| :: !IsLineBreak(SplitLines, t[i])
  {
    var lines := Lines(text, SplitLines);
    LinesHaveNoBreaks(text, SplitLines);
    forall t, i | t in GetTickers(Some(text)) && 0 <= i < |t| ensures !IsLineBreak(SplitLines, t[i]) {
      KeepNonBlankMembers(lines, t);
      var l :| l in lines && Strip(l) == t;
      StripChars(l);
      var j :| 0 <= j < |lines| && lines[j] == l;
      var m :| 0 <= m < |l| && l[m] == t[i];
      assert !IsLineBreak(SplitLines, lines[j][m]);
    }
  }

  // ---------------------------------------------------------------------
  // Batches

  const BatchSize: nat := 5

  /** `[xs[i:i + 5] for i in range(0, len(xs), 5)]`: the batches `fetch_stocks` walks. */
  function Batches<T>(xs: seq<T>): (bs: seq<seq<T>>)
    ensures Concat(bs) == xs
    ensures forall i | 0 <= i < |bs| :: 0 < |bs[i]| <= BatchSize
    ensures forall i | 0 <= i < |bs| - 1 :: |bs[i]| == BatchSize
    ensures |bs| == (|xs| + BatchSize - 1) / BatchSize
    decreases |xs|
  {
    if xs == [] then []
    else if |xs| <= BatchSize then
      assert Concat([xs]) == xs + Concat<T>([]);
      [xs]
    else
      var rest := Batches(xs[BatchSize..]);
      var bs := [xs[..BatchSize]] + rest;
      assert bs[1..] == rest;
      assert xs == xs[..BatchSize] + xs[BatchSize..];
      bs
  }

  // ---------------------------------------------------------------------
  // The summary page

  /** What the browser session returned for one ticker's summary page. */
  datatype SummaryPage = SummaryPage(
    source: string,                   // the rendered page source
    indicatorRows: seq<seq<string>>,  // `td` texts of each `.stock-indicators-table-row`
    captionRows: seq<seq<string>>,    // `td` texts of each `.t-caption` row
    gfValue: Option<string>,          // text of the GF Value span, when the page has one
    price: Option<string>)            // text of the price span, when the page has one

  /** `if html:` on the cached page source: present and not empty. */
  predicate Rendered(page: Option<SummaryPage>) {
    page.Some? && page.value.source != []
  }

  /** Whether a table row writes into the record: it needs three cells, and
      in the caption table also a non-empty key. `clean` is the key
      normaliser, `clean_title` in the source. */
  predicate WritesRow(cells: seq<string>, skipEmptyKey: bool, clean: string -> string) {
    |cells| >= 3 && !(skipEmptyKey && clean(cells[1]) == [])
  }

  /** The assignment `data[clean(cells[1])] = cells[2].strip()` one row makes. */
  function RowWrite(cells: seq<string>, clean: string -> string): (w: (string, string))
    requires |cells| >= 3
    ensures Stripped(w.1)
  {
    (clean(cells[1]), Strip(cells[2]))
  }

  /** The assignments one table's loop performs, in row order. */
  function RowWrites(rows: seq<seq<string>>, skipEmptyKey: bool, clean: string -> string): (ws: seq<(string, string)>)
    ensures |ws| <= |rows|
    decreases |rows|
  {
    if rows == [] then []
    else
      var row := rows[0];
      (if WritesRow(row, skipEmptyKey, clean) then [RowWrite(row, clean)] else [])
      + RowWrites(rows[1..], skipEmptyKey, clean)
  }

  /** Some row of `rows` that qualifies writes to `key`. */
  predicate RowKey(rows: seq<seq<string>>, skipEmptyKey: bool, clean: string -> string, key: string) {
    exists i | 0 <= i < |rows| :: WritesRow(rows[i], skipEmptyKey, clean) && clean(rows[i][1]) == key
  }

  /** A table's loop writes to `key` exactly when some qualifying row's
      header cleans to it. */
  lemma {:induction false} RowWritesTouch(rows: seq<seq<string>>, skipEmptyKey: bool, clean: string -> string,
                                          key: string)
    ensures Writes.Touches(RowWrites(rows, skipEmptyKey, clean), key) <==> RowKey(rows, skipEmptyKey, clean, key)
    decreases |rows|
  {
    if rows != [] {
      var head := if WritesRow(rows[0], skipEmptyKey, clean) then [RowWrite(rows[0], clean)] else [];
      Writes.TouchesAppend(head, RowWrites(rows[1..], skipEmptyKey, clean), key);
      if head != [] {
        Writes.TouchesSingle(head[0], key);
      }
      RowWritesTouch(rows[1..], skipEmptyKey, clean, key);
      if RowKey(rows, skipEmptyKey, clean, key) {
        var i :| 0 <= i < |rows| && WritesRow(rows[i], skipEmptyKey, clean) && clean(rows[i][1]) == key;
        if i > 0 {
          assert rows[1..][i - 1] == rows[i];
        }
      }
      if RowKey(rows[1..], skipEmptyKey, clean, key) {
        var i :| 0 <= i < |rows[1..]| && WritesRow(rows[1..][i], skipEmptyKey, clean) && clean(rows[1..][i][1]) == key;
        assert rows[i + 1] == rows[1..][i];
      }
    }
  }

  /** With `clean_title` as normaliser every written key is clean, and the
      caption table never writes the empty key. */
  lemma RowKeyClean(rows: seq<seq<string>>, skipEmptyKey: bool, key: string)
    ensures RowKey(rows, skipEmptyKey, CleanTitle, key) ==> IsCleanKey(key) && (skipEmptyKey ==> key != [])
  {
    if RowKey(rows, skipEmptyKey, CleanTitle, key) {
      var i :| 0 <= i < |rows| && WritesRow(rows[i], skipEmptyKey, CleanTitle) && CleanTitle(rows[i][1]) == key;
    }
  }

  lemma {:induction false} RowWritesAppend(a: seq<seq<string>>, b: seq<seq<string>>, skipEmptyKey: bool,
                                           clean: string -> string)
    ensures RowWrites(a + b, skipEmptyKey, clean) == RowWrites(a, skipEmptyKey, clean) + RowWrites(b, skipEmptyKey, clean)
    decreases |a|
  {
    if a != [] {
      assert (a + b)[0] == a[0];
      assert (a + b)[1..] == a[1..] + b;
      RowWritesAppend(a[1..], b, skipEmptyKey, clean);
    } else {
      assert a + b == b;
    }
  }

  /** A qualifying row sits between the writes of the rows before it and
      those of the rows after it. */
  lemma RowWritesSplit(rows: seq<seq<string>>, j: nat, skipEmptyKey: bool, clean: string -> string)
    requires j < |rows| && WritesRow(rows[j], skipEmptyKey, clean)
    ensures RowWrites(rows, skipEmptyKey, clean)
      == RowWrites(rows[..j], skipEmptyKey, clean) + [RowWrite(rows[j], clean)]
         + RowWrites(rows[j + 1..], skipEmptyKey, clean)
  {
    assert rows == rows[..j] + rows[j..];
    RowWritesAppend(rows[..j], rows[j..], skipEmptyKey, clean);
    assert rows[j..][0] == rows[j] && rows[j..][1..] == rows[j + 1..];
    assert RowWrites(rows[j..], skipEmptyKey, clean)
      == [RowWrite(rows[j], clean)] + RowWrites(rows[j + 1..], skipEmptyKey, clean);
    AppendAssoc(RowWrites(rows[..j], skipEmptyKey, clean), [RowWrite(rows[j], clean)],
                RowWrites(rows[j + 1..], skipEmptyKey, clean));
  }

  /** `data["gf_value"] = gf_value.text.replace("$", "")` when the span exists. */
  function GfValueWrite(gfValue: Option<string>): seq<(string, string)> {
    match gfValue
    case None => []
    case Some(text) => [("gf_value", Replace(text, "$", ""))]
  }

  /** `data["price"] = price.text.strip().replace("$", "").strip()` when the span exists. */
  function PriceWrite(price: Option<string>): seq<(string, string)> {
    match price
    case None => []
    case Some(text) => [("price", Strip(Replace(Strip(text), "$", "")))]
  }

  /** The two span assignments that close `parse_summary_data`. */
  function SpanWrites(p: SummaryPage): seq<(string, string)> {
    GfValueWrite(p.gfValue) + PriceWrite(p.price)
  }

  /** Every assignment `parse_summary_data` makes into `data`, in program order. */
  function SummaryWrites(ticker: string, p: SummaryPage): seq<(string, string)> {
    [("ticker", ticker)]
    + RowWrites(p.indicatorRows, false, CleanTitle)
    + RowWrites(p.captionRows, true, CleanTitle)
    + SpanWrites(p)
  }

  /** The keys `parse_summary_data` writes for a rendered page: `"ticker"`,
      the cleaned header of every qualifying row of either table, and the two
      span keys when their spans exist. */
  predicate SummaryKey(p: SummaryPage, key: string) {
    key == "ticker"
    || RowKey(p.indicatorRows, false, CleanTitle, key)
    || RowKey(p.captionRows, true, CleanTitle, key)
    || (key == "gf_value" && p.gfValue.Some?)
    || (key == "price" && p.price.Some?)
  }

  /** Neither span overwrites `key`. */
  predicate SpansSpare(p: SummaryPage, key: string) {
    !(key == "gf_value" && p.gfValue.Some?) && !(key == "price" && p.price.Some?)
  }

  /** `parse_summary_data` over the page `fetch_stock` cached for `ticker`:
      nothing unless the page was rendered; otherwise a record that starts
      from the ticker, with the two spans' values stripped of dollar signs. */
  function ParseSummaryData(ticker: string, page: Option<SummaryPage>): (data: map<string, string>)
    ensures |data| == 0 <==> !Rendered(page)
    ensures Rendered(page) ==> "ticker" in data
    ensures Rendered(page) && page.value.gfValue.Some? ==>
      "gf_value" in data && data["gf_value"] == Replace(page.value.gfValue.value, "$", "")
      && '$' !in data["gf_value"]
    ensures Rendered(page) && page.value.price.Some? ==>
      "price" in data && data["price"] == Strip(Replace(Strip(page.value.price.value), "$", ""))
      && '$' !in data["price"] && Stripped(data["price"])
  {
    if !Rendered(page) then map[]
    else
      var p := page.value;
      SummaryKeys(ticker, p);
      SpansFinal(ticker, p);
      Writes.Apply(map[], SummaryWrites(ticker, p))
  }

  /** The record of a rendered page holds exactly the summary keys, and
      every key is clean. */
  lemma ParseSummaryKeys(ticker: string, page: Option<SummaryPage>)
    ensures Rendered(page) ==>
      forall key :: key in ParseSummaryData(ticker, page) <==> SummaryKey(page.value, key)
    ensures forall key | key in ParseSummaryData(ticker, page) :: IsCleanKey(key)
  {
    if Rendered(page) {
      SummaryKeys(ticker, page.value);
    }
  }

  /** A non-empty word of lower-case ASCII letters and underscores is a clean key. */
  lemma LowerWordClean(s: string)
    requires s != []
    requires forall i | 0 <= i < |s| :: 'a' <= s[i] <= 'z' || s[i] == '_'
    ensures IsCleanKey(s)
  {
    assert forall c | c in s :: 'a' <= c <= 'z' || c == '_';
  }

  lemma FixedKeysClean()
    ensures IsCleanKey("ticker") && IsCleanKey("gf_value") && IsCleanKey("price")
  {
    LowerWordClean("ticker");
    LowerWordClean("gf_value");
    LowerWordClean("price");
  }

  lemma SpanWritesTouch(p: SummaryPage, key: string)
    ensures Writes.Touches(SpanWrites(p), key) <==> !SpansSpare(p, key)
  {
    Writes.TouchesAppend(GfValueWrite(p.gfValue), PriceWrite(p.price), key);
    if p.gfValue.Some? {
      Writes.TouchesSingle(GfValueWrite(p.gfValue)[0], key);
    }
    if p.price.Some? {
      Writes.TouchesSingle(PriceWrite(p.price)[0], key);
    }
  }

  /** The writes touch exactly the summary keys. */
  lemma SummaryTouch(ticker: string, p: SummaryPage, key: string)
    ensures Writes.Touches(SummaryWrites(ticker, p), key) <==> SummaryKey(p, key)
  {
    var first := [("ticker", ticker)];
    var ind := RowWrites(p.indicatorRows, false, CleanTitle);
    var cap := RowWrites(p.captionRows, true, CleanTitle);
    Writes.TouchesAppend(first + ind + cap, SpanWrites(p), key);
    Writes.TouchesAppend(first + ind, cap, key);
    Writes.TouchesAppend(first, ind, key);
    Writes.TouchesSingle(("ticker", ticker), key);
    RowWritesTouch(p.indicatorRows, false, CleanTitle, key);
    RowWritesTouch(p.captionRows, true, CleanTitle, key);
    SpanWritesTouch(p, key);
  }

  lemma SummaryKeys(ticker: string, p: SummaryPage)
    ensures forall key :: key in Writes.Apply(map[], SummaryWrites(ticker, p)) <==> SummaryKey(p, key)
    ensures "ticker" in Writes.Apply(map[], SummaryWrites(ticker, p))
    ensures forall key | key in Writes.Apply(map[], SummaryWrites(ticker, p)) :: IsCleanKey(key)
  {
    var data := Writes.Apply(map[], SummaryWrites(ticker, p));
    forall key ensures key in data <==> SummaryKey(p, key) {
      SummaryTouch(ticker, p, key);
    }
    FixedKeysClean();
    forall key | key in data ensures IsCleanKey(key) {
      if RowKey(p.indicatorRows, false, CleanTitle, key) {
        RowKeyClean(p.indicatorRows, false, key);
      } else if RowKey(p.captionRows, true, CleanTitle, key) {
        RowKeyClean(p.captionRows, true, key);
      }
    }
  }

  /** The span values are written last, so they are final. */
  lemma SpansFinal(ticker: string, p: SummaryPage)
    ensures p.gfValue.Some? ==>
      var data := Writes.Apply(map[], SummaryWrites(ticker, p));
      "gf_value" in data && data["gf_value"] == Replace(p.gfValue.value, "$", "")
      && '$' !in data["gf_value"]
    ensures p.price.Some? ==>
      var data := Writes.Apply(map[], SummaryWrites(ticker, p));
      var price := Strip(Replace(Strip(p.price.value), "$", ""));
      "price" in data && data["price"] == price && '$' !in price
  {
    var prefix := [("ticker", ticker)] + RowWrites(p.indicatorRows, false, CleanTitle)
      + RowWrites(p.captionRows, true, CleanTitle);
    if p.gfValue.Some? {
      var w := ("gf_value", Replace(p.gfValue.value, "$", ""));
      var rest := PriceWrite(p.price);
      if p.price.Some? {
        Writes.TouchesSingle(rest[0], "gf_value");
      }
      assert SummaryWrites(ticker, p) == prefix + [w] + rest;
      Writes.ApplyLastWins(map[], prefix, w, rest);
    }
    if p.price.Some? {
      var w := ("price", Strip(Replace(Strip(p.price.value), "$", "")));
      assert SummaryWrites(ticker, p) == prefix + GfValueWrite(p.gfValue) + [w] + [];
      Writes.ApplyLastWins(map[], prefix + GfValueWrite(p.gfValue), w, []);
      StripKeepsOut(Replace(Strip(p.price.value), "$", ""), '$');
    }
  }

  /** The record is built in four stages: the ticker entry, the indicator
      rows, the caption rows, the spans. */
  lemma SummaryStages(ticker: string, p: SummaryPage)
    ensures Writes.Apply(map[], SummaryWrites(ticker, p))
      == Writes.Apply(Writes.Apply(Writes.Apply(map[]["ticker" := ticker],
           RowWrites(p.indicatorRows, false, CleanTitle)),
           RowWrites(p.captionRows, true, CleanTitle)),
           SpanWrites(p))
  {
    var first := [("ticker", ticker)];
    var ind := RowWrites(p.indicatorRows, false, CleanTitle);
    var cap := RowWrites(p.captionRows, true, CleanTitle);
    Writes.ApplyAppend(map[], first + ind + cap, SpanWrites(p));
    Writes.ApplyAppend(map[], first + ind, cap);
    Writes.ApplyAppend(map[], first, ind);
    assert first[1..] == [];
  }

  /** After a table's loop, a qualifying row's value stands when no later
      row of the same table has its key. */
  lemma RowWins(m: map<string, string>, rows: seq<seq<string>>, j: nat, skipEmptyKey: bool)
    requires j < |rows| && WritesRow(rows[j], skipEmptyKey, CleanTitle)
    requires !RowKey(rows[j + 1..], skipEmptyKey, CleanTitle, CleanTitle(rows[j][1]))
    ensures var after := Writes.Apply(m, RowWrites(rows, skipEmptyKey, CleanTitle));
      CleanTitle(rows[j][1]) in after && after[CleanTitle(rows[j][1])] == Strip(rows[j][2])
  {
    var w := RowWrite(rows[j], CleanTitle);
    var before := RowWrites(rows[..j], skipEmptyKey, CleanTitle);
    var later := RowWrites(rows[j + 1..], skipEmptyKey, CleanTitle);
    RowWritesSplit(rows, j, skipEmptyKey, CleanTitle);
    RowWritesTouch(rows[j + 1..], skipEmptyKey, CleanTitle, w.0);
    Writes.ApplyLastWins(m, before, w, later);
  }

  /** The ticker entry survives unless a table row's header cleans to
      `"ticker"`. */
  lemma TickerKept(ticker: string, p: SummaryPage)
    requires p.source != []
    requires !RowKey(p.indicatorRows, false, CleanTitle, "ticker")
    requires !RowKey(p.captionRows, true, CleanTitle, "ticker")
    ensures var data := ParseSummaryData(ticker, Some(p));
      "ticker" in data && data["ticker"] == ticker
  {
    var m0 := map[]["ticker" := ticker];
    var m1 := Writes.Apply(m0, RowWrites(p.indicatorRows, false, CleanTitle));
    var m2 := Writes.Apply(m1, RowWrites(p.captionRows, true, CleanTitle));
    SummaryStages(ticker, p);
    RowWritesTouch(p.indicatorRows, false, CleanTitle, "ticker");
    RowWritesTouch(p.captionRows, true, CleanTitle, "ticker");
    SpanWritesTouch(p, "ticker");
    Writes.ApplyUntouched(m0, RowWrites(p.indicatorRows, false, CleanTitle), "ticker");
    Writes.ApplyUntouched(m1, RowWrites(p.captionRows, true, CleanTitle), "ticker");
    Writes.ApplyUntouched(m2, SpanWrites(p), "ticker");
  }

  /** The last indicator row with a given key decides its value, unless a
      caption row or a span writes the same key after it. */
  lemma IndicatorRowWins(ticker: string, p: SummaryPage, j: nat)
    requires p.source != []
    requires j < |p.indicatorRows| && WritesRow(p.indicatorRows[j], false, CleanTitle)
    requires !RowKey(p.indicatorRows[j + 1..], false, CleanTitle, CleanTitle(p.indicatorRows[j][1]))
    requires !RowKey(p.captionRows, true, CleanTitle, CleanTitle(p.indicatorRows[j][1]))
    requires SpansSpare(p, CleanTitle(p.indicatorRows[j][1]))
    ensures var data := ParseSummaryData(ticker, Some(p));
      var key := CleanTitle(p.indicatorRows[j][1]);
      key in data && data[key] == Strip(p.indicatorRows[j][2])
  {
    var key := CleanTitle(p.indicatorRows[j][1]);
    var m1 := Writes.Apply(map[]["ticker" := ticker], RowWrites(p.indicatorRows, false, CleanTitle));
    var m2 := Writes.Apply(m1, RowWrites(p.captionRows, true, CleanTitle));
    SummaryStages(ticker, p);
    RowWins(map[]["ticker" := ticker], p.indicatorRows, j, false);
    RowWritesTouch(p.captionRows, true, CleanTitle, key);
    SpanWritesTouch(p, key);
    Writes.ApplyUntouched(m1, RowWrites(p.captionRows, true, CleanTitle), key);
    Writes.ApplyUntouched(m2, SpanWrites(p), key);
  }

  /** The last caption row with a given key decides its value, unless a span
      writes the same key. */
  lemma CaptionRowWins(ticker: string, p: SummaryPage, j: nat)
    requires p.source != []
    requires j < |p.captionRows| && WritesRow(p.captionRows[j], true, CleanTitle)
    requires !RowKey(p.captionRows[j + 1..], true, CleanTitle, CleanTitle(p.captionRows[j][1]))
    requires SpansSpare(p, CleanTitle(p.captionRows[j][1]))
    ensures var data := ParseSummaryData(ticker, Some(p));
      var key := CleanTitle(p.captionRows[j][1]);
      key in data && data[key] == Strip(p.captionRows[j][2])
  {
    var key := CleanTitle(p.captionRows[j][1]);
    var m1 := Writes.Apply(map[]["ticker" := ticker], RowWrites(p.indicatorRows, false, CleanTitle));
    var m2 := Writes.Apply(m1, RowWrites(p.captionRows, true, CleanTitle));
    SummaryStages(ticker, p);
    RowWins(m1, p.captionRows, j, true);
    SpanWritesTouch(p, key);
    Writes.ApplyUntouched(m2, SpanWrites(p), key);
  }

  /** Only the indicator table can produce the empty key: the caption loop
      skips rows whose header cleans to nothing. */
  lemma EmptyKeyOnlyFromIndicators(ticker: string, p: SummaryPage)
    requires p.source != []
    ensures "" in ParseSummaryData(ticker, Some(p)) <==> RowKey(p.indicatorRows, false, CleanTitle, "")
  {
    ParseSummaryKeys(ticker, Some(p));
    if RowKey(p.captionRows, true, CleanTitle, "") {
      RowKeyClean(p.captionRows, true, "");
    }
  }
}

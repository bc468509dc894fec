/**
 Python `str` operations used by the scrapers, over Dafny strings (`seq<char>`):
 `isspace`, `replace`, `strip`, `lower`, `split(sep)`, `splitlines()` and the
 line iteration of a text file opened in universal-newline mode.
 */
module Strings {

  /** Python's whitespace: exactly the characters `str.isspace()` accepts,
      which is the set `str.strip()` removes when called without arguments. */
  predicate IsSpace(c: char) {
    || c == ' '
    || '\t' <= c <= '\r'
    || '\U{1c}' <= c <= '\U{1f}'
    || c == '\U{85}' || c == '\U{a0}' || c == '\U{1680}'
    || '\U{2000}' <= c <= '\U{200a}'
    || c == '\U{2028}' || c == '\U{2029}' || c == '\U{202f}' || c == '\U{205f}' || c == '\U{3000}'
  }

  predicate IsUpper(c: char) {
    'A' <= c <= 'Z'
  }

  /** ASCII lower-casing of one character. */
  function LowerChar(c: char): (r: char)
    ensures !IsUpper(r)
    ensures IsSpace(r) <==> IsSpace(c)
    ensures !IsUpper(c) ==> r == c
  {
    if IsUpper(c) then (c as int + 32) as char else c
  }

  /** `s.replace(pat, sub)`: occurrences of `pat` are found left to right and
      do not overlap; the text a replacement produced is never rescanned. */
  function Replace(s: string, pat: string, sub: string): (r: string)
    requires pat != []
    ensures |sub| <= |pat| ==> |r| <= |s|
    ensures pat[0] !in s ==> r == s
    ensures |pat| == 1 && pat[0] !in sub ==> pat[0] !in r
    decreases |s|
  {
    if |s| < |pat| then s
    else if s[..|pat|] == pat then sub + Replace(s[|pat|..], pat, sub)
    else [s[0]] + Replace(s[1..], pat, sub)
  }

  /** `replace` brings in no character that neither the text nor the
      replacement holds. */
  lemma {:induction false} ReplaceKeepsOut(s: string, pat: string, sub: string, c: char)
    requires pat != []
    requires c !in s && c !in sub
    ensures c !in Replace(s, pat, sub)
    decreases |s|
  {
    if |s| >= |pat| {
      if s[..|pat|] == pat {
        assert c !in s[|pat|..];
        ReplaceKeepsOut(s[|pat|..], pat, sub, c);
      } else {
        assert c !in s[1..];
        ReplaceKeepsOut(s[1..], pat, sub, c);
      }
    }
  }

  /** Replacing one character by one character rewrites each position in place. */
  lemma {:induction false} ReplaceCharPointwise(s: string, a: char, b: char)
    ensures |Replace(s, [a], [b])| == |s|
    ensures forall i | 0 <= i < |s| :: Replace(s, [a], [b])[i] == if s[i] == a then b else s[i]
    decreases |s|
  {
    if |s| > 0 {
      ReplaceCharPointwise(s[1..], a, b);
    }
  }

  /** A run of `n` copies of `c`. */
  function Repeat(c: char, n: nat): (r: string)
    ensures |r| == n
    ensures forall i | 0 <= i < n :: r[i] == c
  {
    if n == 0 then [] else [c] + Repeat(c, n - 1)
  }

  /** Replacing a character by another turns a run of one into a run of the other. */
  lemma {:induction false} ReplaceRepeat(c: char, d: char, n: nat)
    ensures Replace(Repeat(c, n), [c], [d]) == Repeat(d, n)
    decreases n
  {
    if n > 0 {
      var s := Repeat(c, n);
      assert s[..1] == [c] && s[1..] == Repeat(c, n - 1);
      ReplaceRepeat(c, d, n - 1);
    }
  }

  /** One pass of `replace("  ", " ")` halves a run of spaces, rounding up,
      whatever follows the run as long as it does not start with a space: a
      run of three or more spaces leaves at least two behind. */
  lemma {:induction false} ReplaceDoubleSpaceRun(n: nat, w: string)
    requires w == [] || w[0] != ' '
    ensures Replace(Repeat(' ', n) + w, "  ", " ") == Repeat(' ', (n + 1) / 2) + Replace(w, "  ", " ")
    decreases n
  {
    if n == 0 {
      assert (n + 1) / 2 == 0 && Repeat(' ', n) == [];
      assert Repeat(' ', n) + w == w;
    } else if n == 1 {
      assert (n + 1) / 2 == 1;
      ReplaceLoneSpace(w);
    } else {
      ReplaceDoubleSpaceRun(n - 2, w);
      ReplaceDoubleSpaceTwoMore(n, w);
    }
  }

  /** Two more spaces in front of a run cost one more space in the result. */
  lemma ReplaceDoubleSpaceTwoMore(n: nat, w: string)
    requires n >= 2
    requires Replace(Repeat(' ', n - 2) + w, "  ", " ") == Repeat(' ', (n - 1) / 2) + Replace(w, "  ", " ")
    ensures Replace(Repeat(' ', n) + w, "  ", " ") == Repeat(' ', (n + 1) / 2) + Replace(w, "  ", " ")
  {
    var m: nat := n - 2;
    var k, r := (n - 1) / 2, Replace(w, "  ", " ");
    assert (n + 1) / 2 == k + 1;
    calc {
      Replace(Repeat(' ', n) + w, "  ", " ");
    == { RepeatTwoMore(m, w); }
      Replace("  " + (Repeat(' ', m) + w), "  ", " ");
    == { ReplaceDoubleSpaceStep(Repeat(' ', m) + w); }
      " " + (Repeat(' ', k) + r);
    == { AppendAssoc(" ", Repeat(' ', k), r); }
      Repeat(' ', k + 1) + r;
    }
  }

  lemma RepeatTwoMore(m: nat, w: string)
    ensures Repeat(' ', m + 2) + w == "  " + (Repeat(' ', m) + w)
  {
    assert Repeat(' ', m + 2) == [' '] + ([' '] + Repeat(' ', m));
  }

  lemma ReplaceLoneSpace(w: string)
    requires w == [] || w[0] != ' '
    ensures Replace(Repeat(' ', 1) + w, "  ", " ") == Repeat(' ', 1) + Replace(w, "  ", " ")
  {
    var s := Repeat(' ', 1) + w;
    assert s == [' '] + w;
    if w != [] {
      assert s[..2] == [' ', w[0]];
      assert s[1..] == w;
    }
  }

  lemma ReplaceDoubleSpaceStep(rest: string)
    ensures Replace("  " + rest, "  ", " ") == " " + Replace(rest, "  ", " ")
  {
    var s := "  " + rest;
    assert s[..2] == "  " && s[2..] == rest;
  }

  /** A prefix holding no first character of the pattern passes through
      `replace` unchanged. */
  lemma {:induction false} ReplaceSkip(w: string, v: string, pat: string, sub: string)
    requires pat != [] && pat[0] !in w
    ensures Replace(w + v, pat, sub) == w + Replace(v, pat, sub)
    decreases |w|
  {
    if w != [] {
      var s := w + v;
      ReplaceSkip(w[1..], v, pat, sub);
      if |s| < |pat| {
        assert Replace(v, pat, sub) == v;
      } else {
        assert s[..|pat|] != pat by {
          assert s[..|pat|][0] == w[0];
        }
        assert s[1..] == w[1..] + v;
        assert Replace(s, pat, sub) == [w[0]] + Replace(w[1..] + v, pat, sub);
        assert w == [w[0]] + w[1..];
        AppendAssoc([w[0]], w[1..], Replace(v, pat, sub));
      }
    } else {
      assert w + v == v;
    }
  }

  /** With a one-character pattern, `replace` rewrites one character at a
      time, so it distributes over concatenation. */
  lemma {:induction false} ReplaceCharAppend(u: string, v: string, a: char, sub: string)
    ensures Replace(u + v, [a], sub) == Replace(u, [a], sub) + Replace(v, [a], sub)
    decreases |u|
  {
    var s := u + v;
    if u == [] {
      assert s == v;
    } else {
      assert s[..1] == u[..1];
      assert s[1..] == u[1..] + v;
      ReplaceCharAppend(u[1..], v, a, sub);
      var head := if u[0] == a then sub else [u[0]];
      AppendAssoc(head, Replace(u[1..], [a], sub), Replace(v, [a], sub));
    }
  }

  /** A one-character text becomes the replacement or stays as it is. */
  lemma ReplaceCharSingle(c: char, a: char, sub: string)
    ensures Replace([c], [a], sub) == if c == a then sub else [c]
  {
    assert [c][1..] == [];
  }

  /** `s` with every `c` taken out and the other characters kept in order. */
  function Remove(s: string, c: char): (r: string)
    ensures multiset(r) == multiset(s)[c := 0]
    decreases |s|
  {
    if s == [] then []
    else
      assert s == [s[0]] + s[1..];
      (if s[0] == c then [] else [s[0]]) + Remove(s[1..], c)
  }

  /** Replacing a character by nothing removes it. */
  lemma {:induction false} ReplaceDelete(s: string, c: char)
    ensures Replace(s, [c], []) == Remove(s, c)
    decreases |s|
  {
    if s != [] {
      assert s[..1] == [s[0]];
      ReplaceDelete(s[1..], c);
    }
  }

  /** True when `s` has no whitespace at either end, so `strip()` leaves it alone. */
  predicate Stripped(s: string) {
    s == [] || (!IsSpace(s[0]) && !IsSpace(s[|s| - 1]))
  }

  /** `s.strip()`: removes whitespace from both ends and nothing else. */
  function Strip(s: string): (r: string)
    ensures Stripped(r)
    ensures |r| <= |s|
    ensures Stripped(s) ==> r == s
    decreases |s|
  {
    if s != [] && IsSpace(s[0]) then Strip(s[1..])
    else if s != [] && IsSpace(s[|s| - 1]) then Strip(s[..|s| - 1])
    else s
  }

  /** `r` is `s[k..k + |r|]` with only whitespace before and after it. */
  ghost predicate SpaceAround(s: string, k: nat, r: string) {
    && k + |r| <= |s|
    && r == s[k..k + |r|]
    && (forall i | 0 <= i < k :: IsSpace(s[i]))
    && (forall i | k + |r| <= i < |s| :: IsSpace(s[i]))
  }

  lemma SpaceAroundDropFirst(s: string, k: nat, r: string)
    requires s != [] && IsSpace(s[0])
    requires SpaceAround(s[1..], k, r)
    ensures SpaceAround(s, k + 1, r)
  {
    forall i | 0 <= i < k + 1 ensures IsSpace(s[i]) {
      if i > 0 { assert s[i] == s[1..][i - 1]; }
    }
    forall i | k + 1 + |r| <= i < |s| ensures IsSpace(s[i]) {
      assert s[i] == s[1..][i - 1];
    }
  }

  lemma SpaceAroundDropLast(s: string, k: nat, r: string)
    requires s != [] && IsSpace(s[|s| - 1])
    requires SpaceAround(s[..|s| - 1], k, r)
    ensures SpaceAround(s, k, r)
  {
    var t := s[..|s| - 1];
    forall i | 0 <= i < k ensures IsSpace(s[i]) {
      assert s[i] == t[i];
    }
    forall i | k + |r| <= i < |s| ensures IsSpace(s[i]) {
      if i < |t| { assert s[i] == t[i]; }
    }
  }

  /** What `strip()` keeps is a stretch of the text with only whitespace
      around it. */
  lemma {:induction false} StripInfix(s: string)
    ensures exists k: nat :: SpaceAround(s, k, Strip(s))
    decreases |s|
  {
    var r := Strip(s);
    if s != [] && IsSpace(s[0]) {
      StripInfix(s[1..]);
      var k: nat :| SpaceAround(s[1..], k, r);
      SpaceAroundDropFirst(s, k, r);
    } else if s != [] && IsSpace(s[|s| - 1]) {
      StripInfix(s[..|s| - 1]);
      var k: nat :| SpaceAround(s[..|s| - 1], k, r);
      SpaceAroundDropLast(s, k, r);
    } else {
      assert r == s;
      assert SpaceAround(s, 0, r);
    }
  }

  /** `strip()` keeps no character the text does not hold. */
  lemma StripKeepsOut(s: string, c: char)
    requires c !in s
    ensures c !in Strip(s)
  {
    StripInfix(s);
    var k: nat :| SpaceAround(s, k, Strip(s));
  }

  /** Every character `strip()` keeps comes from the text. */
  lemma StripChars(s: string)
    ensures forall i | 0 <= i < |Strip(s)| :: Strip(s)[i] in s
  {
    StripInfix(s);
    var k: nat :| SpaceAround(s, k, Strip(s));
    forall i | 0 <= i < |Strip(s)| ensures Strip(s)[i] in s {
      assert Strip(s)[i] == s[k + i];
    }
  }

  /** A stripped line is empty exactly when the line is blank. */
  lemma StripEmptyIffBlank(s: string)
    ensures Strip(s) == [] <==> forall i | 0 <= i < |s| :: IsSpace(s[i])
  {
    StripInfix(s);
    var k: nat :| SpaceAround(s, k, Strip(s));
  }

  /** `strip()` is idempotent. */
  lemma StripIdempotent(s: string)
    ensures Strip(Strip(s)) == Strip(s)
  {
  }

  /** `s.lower()`, restricted to the ASCII letters. */
  function Lower(s: string): (r: string)
    ensures |r| == |s|
    ensures forall i | 0 <= i < |s| :: r[i] == LowerChar(s[i])
    ensures (forall i | 0 <= i < |s| :: !IsUpper(s[i])) ==> r == s
  {
    seq(|s|, i requires 0 <= i < |s| => LowerChar(s[i]))
  }

  /** `lower()` brings in no character other than a lower-case letter. */
  lemma LowerKeepsOut(s: string, c: char)
    requires c !in s
    requires !('a' <= c <= 'z')
    ensures c !in Lower(s)
  {
  }

  /** `lower()` works one character at a time. */
  lemma LowerAppend(u: string, v: string)
    ensures Lower(u + v) == Lower(u) + Lower(v)
  {
    var l, r := Lower(u + v), Lower(u) + Lower(v);
    forall i | 0 <= i < |l| ensures l[i] == r[i] {
      if i >= |u| {
        assert (u + v)[i] == v[i - |u|];
      }
    }
  }

  /** Text without a capital letter is its own lower-case form. */
  lemma LowerNoCapital(u: string)
    requires forall c | c in u :: !IsUpper(c)
    ensures Lower(u) == u
  {
    assert forall i | 0 <= i < |u| :: u[i] in u;
  }

  /** Number of occurrences of `c` in `s`. */
  function Count(s: string, c: char): (n: nat)
    ensures n <= |s|
    ensures n == 0 <==> c !in s
    decreases |s|
  {
    if s == [] then 0
    else (if s[0] == c then 1 else 0) + Count(s[1..], c)
  }

  lemma {:induction false} CountAppend(a: string, b: string, c: char)
    ensures Count(a + b, c) == Count(a, c) + Count(b, c)
    decreases |a|
  {
    if a == [] {
      assert a + b == b;
    } else {
      assert (a + b)[1..] == a[1..] + b;
      CountAppend(a[1..], b, c);
    }
  }

  /** Index of the first `c` in `s`, or `|s|` when there is none. */
  function IndexOf(s: string, c: char): (k: nat)
    ensures k <= |s|
    ensures c !in s[..k]
    ensures k < |s| ==> s[k] == c
    decreases |s|
  {
    if s == [] then 0
    else if s[0] == c then 0
    else 1 + IndexOf(s[1..], c)
  }

  /** `s.split(sep)` with an explicit one-character separator: the pieces
      between separators, empty pieces included, so there is always one more
      piece than there are separators. */
  function Split(s: string, sep: char): (parts: seq<string>)
    ensures |parts| >= 1
    ensures forall p | p in parts :: sep !in p
    decreases |s|
  {
    var k := IndexOf(s, sep);
    if k == |s| then
      assert s[..k] == s;
      [s]
    else
      [s[..k]] + Split(s[k + 1..], sep)
  }

  /** There is always one more piece than there are separators. */
  lemma {:induction false} SplitCount(s: string, sep: char)
    ensures |Split(s, sep)| == Count(s, sep) + 1
    decreases |s|
  {
    var k := IndexOf(s, sep);
    if k < |s| {
      var rest := s[k + 1..];
      SplitCount(rest, sep);
      assert Split(s, sep) == [s[..k]] + Split(rest, sep);
      assert s == s[..k] + [sep] + rest;
      CountAppend(s[..k] + [sep], rest, sep);
      CountAppend(s[..k], [sep], sep);
      assert Count([sep], sep) == 1;
    } else {
      assert Split(s, sep) == [s];
    }
  }

  /** `sep.join(parts)`. */
  function Join(parts: seq<string>, sep: char): string {
    if parts == [] then []
    else if |parts| == 1 then parts[0]
    else parts[0] + [sep] + Join(parts[1..], sep)
  }

  /** Joining the pieces of a split gives back the original string. */
  lemma {:induction false} JoinSplit(s: string, sep: char)
    ensures Join(Split(s, sep), sep) == s
    decreases |s|
  {
    var k := IndexOf(s, sep);
    if k < |s| {
      JoinSplitStep(s, sep);
      JoinSplit(s[k + 1..], sep);
      assert s == s[..k] + [sep] + s[k + 1..];
    } else {
      assert Split(s, sep) == [s];
    }
  }

  lemma JoinSplitStep(s: string, sep: char)
    requires IndexOf(s, sep) < |s|
    ensures Join(Split(s, sep), sep)
      == s[..IndexOf(s, sep)] + [sep] + Join(Split(s[IndexOf(s, sep) + 1..], sep), sep)
  {
    var k := IndexOf(s, sep);
    var parts := Split(s[k + 1..], sep);
    assert Split(s, sep) == [s[..k]] + parts;
    assert ([s[..k]] + parts)[1..] == parts;
  }

  /** Splitting a join of separator-free pieces gives back the pieces. */
  lemma {:induction false} SplitJoin(parts: seq<string>, sep: char)
    requires parts != []
    requires forall p | p in parts :: sep !in p
    ensures Split(Join(parts, sep), sep) == parts
    decreases |parts|
  {
    var s := Join(parts, sep);
    if |parts| == 1 {
      assert parts[0] in parts;
      assert IndexOf(s, sep) == |s|;
    } else {
      var p := parts[0];
      assert s == p + [sep] + Join(parts[1..], sep);
      IndexOfPrefix(p, sep, Join(parts[1..], sep));
      assert s[..|p|] == p;
      assert s[|p| + 1..] == Join(parts[1..], sep);
      SplitJoin(parts[1..], sep);
    }
  }

  /** The first separator of `p + [sep] + t` is the one right after `p`
      when `p` holds none. */
  lemma {:induction false} IndexOfPrefix(p: string, sep: char, t: string)
    requires sep !in p
    ensures IndexOf(p + [sep] + t, sep) == |p|
    decreases |p|
  {
    if p != [] {
      assert (p + [sep] + t)[1..] == p[1..] + [sep] + t;
      IndexOfPrefix(p[1..], sep, t);
    }
  }

  /** How a text is cut into lines. */
  datatype LineMode =
    | FileIteration  // `for line in file` on a text file in universal-newline mode
    | SplitLines     // `str.splitlines()`

  /** The characters that end a line in each mode; `"\r\n"` ends one line in both. */
  predicate IsLineBreak(mode: LineMode, c: char) {
    match mode
    case FileIteration => c == '\n' || c == '\r'
    case SplitLines =>
      || c == '\n' || c == '\r' || c == '\U{b}' || c == '\U{c}'
      || '\U{1c}' <= c <= '\U{1e}'
      || c == '\U{85}' || c == '\U{2028}' || c == '\U{2029}'
  }

  /** Index of the first line break of `s`, or `|s|`. */
  function BreakAt(s: string, mode: LineMode): (k: nat)
    ensures k <= |s|
    ensures forall i | 0 <= i < k :: !IsLineBreak(mode, s[i])
    ensures k < |s| ==> IsLineBreak(mode, s[k])
    decreases |s|
  {
    if s == [] || IsLineBreak(mode, s[0]) then 0
    else 1 + BreakAt(s[1..], mode)
  }

  /** Where the text resumes after its first line: past the terminator,
      which is `"\r\n"` or a single break. */
  function LineEnd(s: string, mode: LineMode): (next: nat)
    requires BreakAt(s, mode) < |s|
    ensures BreakAt(s, mode) < next <= |s|
    ensures forall i | BreakAt(s, mode) <= i < next :: IsLineBreak(mode, s[i])
  {
    var k := BreakAt(s, mode);
    if s[k] == '\r' && k + 1 < |s| && s[k + 1] == '\n' then k + 2 else k + 1
  }

  /** The lines of `s`, terminators dropped. A final terminator does not start
      an empty last line, and the empty text has no lines. */
  function Lines(s: string, mode: LineMode): (lines: seq<string>)
    ensures |lines| <= |s|
    decreases |s|
  {
    if s == [] then []
    else if BreakAt(s, mode) == |s| then [s]
    else [s[..BreakAt(s, mode)]] + Lines(s[LineEnd(s, mode)..], mode)
  }

  /** A text with a break is its first line followed by the lines after the
      terminator. */
  lemma LinesStep(s: string, mode: LineMode)
    requires BreakAt(s, mode) < |s|
    ensures Lines(s, mode) == [s[..BreakAt(s, mode)]] + Lines(s[LineEnd(s, mode)..], mode)
  {
  }

  /** Without `'\r'`, the first break of a file's text is its first `'\n'`. */
  lemma {:induction false} BreakAtIndexOf(s: string)
    requires '\r' !in s
    ensures BreakAt(s, FileIteration) == IndexOf(s, '\n')
    decreases |s|
  {
    if s != [] && s[0] != '\n' {
      BreakAtIndexOf(s[1..]);
    }
  }

  /** A non-empty file text without `'\r'` and without a final `'\n'` has
      exactly the lines `split('\n')` cuts out of it. */
  lemma {:induction false} LinesSplit(s: string)
    requires s != [] && s[|s| - 1] != '\n' && '\r' !in s
    ensures Lines(s, FileIteration) == Split(s, '\n')
    decreases |s|
  {
    BreakAtIndexOf(s);
    var k := BreakAt(s, FileIteration);
    if k < |s| {
      var rest := s[k + 1..];
      assert Lines(s, FileIteration) == [s[..k]] + Lines(rest, FileIteration) by {
        assert LineEnd(s, FileIteration) == k + 1;
        LinesStep(s, FileIteration);
      }
      assert Split(s, '\n') == [s[..k]] + Split(rest, '\n');
      assert rest[|rest| - 1] == s[|s| - 1];
      LinesSplit(rest);
    } else {
      assert Lines(s, FileIteration) == [s];
      assert Split(s, '\n') == [s];
    }
  }

  /** Such a text has one more line than it has terminators. */
  lemma LinesCount(s: string)
    requires s != [] && s[|s| - 1] != '\n' && '\r' !in s
    ensures |Lines(s, FileIteration)| == Count(s, '\n') + 1
  {
    LinesSplit(s);
    SplitCount(s, '\n');
  }

  /** No line holds a line break. */
  lemma {:induction false} LinesHaveNoBreaks(s: string, mode: LineMode)
    ensures forall j, i | 0 <= j < |Lines(s, mode)| && 0 <= i < |Lines(s, mode)[j]| ::
      !IsLineBreak(mode, Lines(s, mode)[j][i])
    decreases |s|
  {
    if s != [] && BreakAt(s, mode) < |s| {
      var k, next := BreakAt(s, mode), LineEnd(s, mode);
      LinesHaveNoBreaks(s[next..], mode);
      LinesStep(s, mode);
      var lines, rest := Lines(s, mode), Lines(s[next..], mode);
      forall j, i | 0 <= j < |lines| && 0 <= i < |lines[j]| ensures !IsLineBreak(mode, lines[j][i]) {
        if j > 0 {
          assert lines[j] == rest[j - 1];
        }
      }
    }
  }

  /** The characters of `s` that are not line breaks, in order. */
  function WithoutBreaks(s: string, mode: LineMode): string
    decreases |s|
  {
    if s == [] then []
    else if IsLineBreak(mode, s[0]) then WithoutBreaks(s[1..], mode)
    else [s[0]] + WithoutBreaks(s[1..], mode)
  }

  lemma {:induction false} WithoutBreaksAppend(a: string, b: string, mode: LineMode)
    ensures WithoutBreaks(a + b, mode) == WithoutBreaks(a, mode) + WithoutBreaks(b, mode)
    decreases |a|
  {
    if a != [] {
      assert (a + b)[0] == a[0];
      assert (a + b)[1..] == a[1..] + b;
      WithoutBreaksAppend(a[1..], b, mode);
    } else {
      assert a + b == b;
    }
  }

  lemma {:induction false} WithoutBreaksIdentity(s: string, mode: LineMode)
    requires forall i | 0 <= i < |s| :: !IsLineBreak(mode, s[i])
    ensures WithoutBreaks(s, mode) == s
    decreases |s|
  {
    if s != [] {
      WithoutBreaksIdentity(s[1..], mode);
    }
  }

  lemma {:induction false} WithoutBreaksAllBreaks(s: string, mode: LineMode)
    requires forall i | 0 <= i < |s| :: IsLineBreak(mode, s[i])
    ensures WithoutBreaks(s, mode) == []
    decreases |s|
  {
    if s != [] {
      WithoutBreaksAllBreaks(s[1..], mode);
    }
  }

  /** The sequences of `ss` laid end to end. */
  function Concat<T>(ss: seq<seq<T>>): seq<T> {
    if ss == [] then [] else ss[0] + Concat(ss[1..])
  }

  lemma AppendAssoc<T>(x: seq<T>, y: seq<T>, z: seq<T>)
    ensures x + y + z == x + (y + z)
  {
  }

  lemma {:induction false} ConcatAppend<T>(a: seq<seq<T>>, b: seq<seq<T>>)
    ensures Concat(a + b) == Concat(a) + Concat(b)
    decreases |a|
  {
    if a == [] {
      assert a + b == b;
    } else {
      assert (a + b)[0] == a[0];
      assert (a + b)[1..] == a[1..] + b;
      ConcatAppend(a[1..], b);
    }
  }

  /** Taking one more piece adds that piece at the end. */
  lemma ConcatPrefix<T>(ss: seq<seq<T>>, i: nat)
    requires i < |ss|
    ensures Concat(ss[..i + 1]) == Concat(ss[..i]) + ss[i]
  {
    assert ss[..i + 1] == ss[..i] + [ss[i]];
    ConcatAppend(ss[..i], [ss[i]]);
    assert [ss[i]][1..] == [];
  }

  /** Cutting off the first line: the text before the first break, then the
      rest after its terminator, with the terminator's breaks dropped. */
  lemma WithoutBreaksFirstLine(s: string, mode: LineMode, k: nat, next: nat)
    requires k < next <= |s|
    requires forall i | 0 <= i < k :: !IsLineBreak(mode, s[i])
    requires forall i | k <= i < next :: IsLineBreak(mode, s[i])
    ensures WithoutBreaks(s, mode) == s[..k] + WithoutBreaks(s[next..], mode)
  {
    assert s == s[..k] + s[k..next] + s[next..];
    WithoutBreaksAppend(s[..k] + s[k..next], s[next..], mode);
    WithoutBreaksAppend(s[..k], s[k..next], mode);
    WithoutBreaksIdentity(s[..k], mode);
    WithoutBreaksAllBreaks(s[k..next], mode);
  }

  /** No text is lost or reordered by cutting into lines: the lines, put back
      together, are the text with its line breaks removed. */
  lemma {:induction false} LinesKeepText(s: string, mode: LineMode)
    ensures Concat(Lines(s, mode)) == WithoutBreaks(s, mode)
    decreases |s|
  {
    if s != [] {
      var k := BreakAt(s, mode);
      if k == |s| {
        WithoutBreaksIdentity(s, mode);
        assert Lines(s, mode) == [s];
      } else {
        var next := LineEnd(s, mode);
        var lines := Lines(s, mode);
        LinesStep(s, mode);
        assert lines[1..] == Lines(s[next..], mode);
        LinesKeepText(s[next..], mode);
        WithoutBreaksFirstLine(s, mode, k, next);
      }
    }
  }
}

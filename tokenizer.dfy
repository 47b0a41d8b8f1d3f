/**
 * The text-to-table tokenizer used when the editor exports its buffer to a
 * spreadsheet: strip the whole text, split it into lines, drop the blank lines
 * and split every remaining line on runs of whitespace.
 *
 * Whitespace is a fixed set of six characters (space, tab, line feed, carriage
 * return, vertical tab, form feed) and the line feed is the only line break.
 */
module Tokenizer {

  predicate IsSpace(c: char) {
    c == ' ' || c == '\t' || c == '\n' || c == '\r' || c == '\U{000B}' || c == '\U{000C}'
  }

  ghost predicate AllSpace(s: string) {
    forall i :: 0 <= i < |s| ==> IsSpace(s[i])
  }

  /** A cell of the exported table: a non-empty run without whitespace. */
  ghost predicate IsWord(w: string) {
    w != [] && forall i :: 0 <= i < |w| ==> !IsSpace(w[i])
  }

  /** The characters of `s` that are not whitespace, in order. */
  function NonSpace(s: string): string {
    if s == [] then []
    else (if IsSpace(s[0]) then [] else [s[0]]) + NonSpace(s[1..])
  }

  function Concat(ws: seq<string>): string {
    if ws == [] then [] else ws[0] + Concat(ws[1..])
  }

  /** All the characters of a table, row by row and cell by cell. */
  function Flatten(rows: seq<seq<string>>): string {
    if rows == [] then [] else Concat(rows[0]) + Flatten(rows[1..])
  }

  // ---------------------------------------------------------------------
  // str.strip()

  /** The number of whitespace characters `s` starts with. */
  function LeadingSpace(s: string): (n: nat)
    ensures n <= |s|
    ensures forall k :: 0 <= k < n ==> IsSpace(s[k])
    ensures n == |s| || !IsSpace(s[n])
  {
    if s == [] || !IsSpace(s[0]) then 0 else 1 + LeadingSpace(s[1..])
  }

  /** The length of `s` without the whitespace it ends with. */
  function TrailingStart(s: string): (n: nat)
    ensures n <= |s|
    ensures forall k :: n <= k < |s| ==> IsSpace(s[k])
    ensures n == 0 || !IsSpace(s[n - 1])
  {
    if s == [] || !IsSpace(s[|s| - 1]) then |s| else TrailingStart(s[..|s| - 1])
  }

  /**
   * Python's `str.strip()`: the text between the leading and the trailing
   * whitespace. The result is empty exactly when the input is all whitespace.
   */
  function Strip(s: string): (r: string)
    ensures r == [] || (!IsSpace(r[0]) && !IsSpace(r[|r| - 1]))
    ensures r == [] <==> AllSpace(s)
  {
    var a := LeadingSpace(s);
    if a == |s| then [] else s[a..TrailingStart(s)]
  }

  /** What Strip removes on either side is whitespace. */
  lemma StripPieces(s: string) returns (pre: string, suf: string)
    ensures s == pre + Strip(s) + suf
    ensures AllSpace(pre) && AllSpace(suf)
  {
    var a, b := LeadingSpace(s), TrailingStart(s);
    if a == |s| {
      pre, suf := s, [];
      assert s == pre + [] + [];
    } else {
      pre, suf := s[..a], s[b..];
      assert s[..b] == pre + s[a..b];
      assert s == s[..b] + suf;
    }
  }

  lemma Associate<T>(a: seq<T>, b: seq<T>, c: seq<T>)
    ensures a + (b + c) == a + b + c
  {
  }

  // ---------------------------------------------------------------------
  // str.split() with no separator

  /** Length of the leading run of non-whitespace characters. */
  function WordLen(s: string): (n: nat)
    ensures n <= |s|
    ensures forall i :: 0 <= i < n ==> !IsSpace(s[i])
    ensures n == |s| || IsSpace(s[n])
  {
    if s == [] || IsSpace(s[0]) then 0 else 1 + WordLen(s[1..])
  }

  /**
   * Python's `str.split()`: the maximal runs of non-whitespace characters,
   * left to right. No word is empty or holds whitespace, and there is no
   * word at all exactly when the text is all whitespace.
   */
  function Words(s: string): (r: seq<string>)
    ensures forall i :: 0 <= i < |r| ==> IsWord(r[i])
    ensures r == [] <==> AllSpace(s)
    decreases |s|
  {
    if s == [] then []
    else if IsSpace(s[0]) then
      assert AllSpace(s) <==> AllSpace(s[1..]);
      Words(s[1..])
    else
      var n := WordLen(s);
      [s[..n]] + Words(s[n..])
  }

  /** The inverse direction of Words: cells joined by single spaces. */
  function JoinWords(ws: seq<string>): string {
    if ws == [] then []
    else if |ws| == 1 then ws[0]
    else ws[0] + " " + JoinWords(ws[1..])
  }

  // ---------------------------------------------------------------------
  // str.splitlines(), with the line feed as the only line break

  /** Index of the first line feed, or |s| when there is none. */
  function LineEnd(s: string): (i: nat)
    ensures i <= |s| && (i == |s| || s[i] == '\n')
    ensures forall k :: 0 <= k < i ==> s[k] != '\n'
  {
    if s == [] || s[0] == '\n' then 0 else 1 + LineEnd(s[1..])
  }

  /**
   * Python's `str.splitlines()`: the lines of `s` without their line feeds;
   * a final line feed does not start an extra empty line, and the empty text
   * has no lines.
   */
  function SplitLines(s: string): (ls: seq<string>)
    ensures forall i :: 0 <= i < |ls| ==> '\n' !in ls[i]
    ensures ls == [] <==> s == []
    decreases |s|
  {
    if s == [] then []
    else
      var i := LineEnd(s);
      if i == |s| then [s] else [s[..i]] + SplitLines(s[i + 1..])
  }

  /** Lines joined with line feeds. */
  function JoinLines(ls: seq<string>): string {
    if ls == [] then []
    else if |ls| == 1 then ls[0]
    else ls[0] + "\n" + JoinLines(ls[1..])
  }

  // ---------------------------------------------------------------------
  // The export tokenizer

  /** A table as exported: no row is empty and every cell is a non-empty run without whitespace. */
  ghost predicate Clean(rows: seq<seq<string>>) {
    forall i :: 0 <= i < |rows| ==> rows[i] != [] && forall j :: 0 <= j < |rows[i]| ==> IsWord(rows[i][j])
  }

  lemma CleanAppend(a: seq<seq<string>>, b: seq<seq<string>>)
    requires Clean(a) && Clean(b)
    ensures Clean(a + b)
  {
    forall i | 0 <= i < |a + b|
      ensures (a + b)[i] != [] && forall j :: 0 <= j < |(a + b)[i]| ==> IsWord((a + b)[i][j])
    {
      if i >= |a| {
        assert (a + b)[i] == b[i - |a|];
      }
    }
  }

  /** One row per non-blank line, in order; a line is blank when it strips to nothing. */
  function TokenizeLines(ls: seq<string>): seq<seq<string>> {
    if ls == [] then []
    else (if Strip(ls[0]) == [] then [] else [Words(ls[0])]) + TokenizeLines(ls[1..])
  }

  /** The rows exported for a buffer text. */
  function Tokenize(content: string): seq<seq<string>> {
    TokenizeLines(SplitLines(Strip(content)))
  }

  /** No row is empty, and every cell is a non-empty run without whitespace. */
  lemma {:induction false} TokenizeLinesClean(ls: seq<string>)
    ensures Clean(TokenizeLines(ls))
  {
    if ls != [] {
      var head := if Strip(ls[0]) == [] then [] else [Words(ls[0])];
      TokenizeLinesClean(ls[1..]);
      CleanAppend(head, TokenizeLines(ls[1..]));
    }
  }

  /** The exported table is clean: no empty row, no empty cell, no whitespace in a cell. */
  lemma TokenizeClean(content: string)
    ensures Clean(Tokenize(content))
  {
    TokenizeLinesClean(SplitLines(Strip(content)));
  }

  // ---------------------------------------------------------------------
  // Lemmas

  lemma {:induction false} NonSpaceAppend(a: string, b: string)
    ensures NonSpace(a + b) == NonSpace(a) + NonSpace(b)
  {
    if a == [] {
      assert a + b == b;
    } else {
      assert (a + b)[1..] == a[1..] + b;
      NonSpaceAppend(a[1..], b);
    }
  }

  lemma {:induction false} NonSpaceOfAllSpace(s: string)
    requires AllSpace(s)
    ensures NonSpace(s) == []
  {
    if s != [] {
      NonSpaceOfAllSpace(s[1..]);
    }
  }

  lemma {:induction false} NonSpaceOfWord(w: string)
    requires forall i :: 0 <= i < |w| ==> !IsSpace(w[i])
    ensures NonSpace(w) == w
  {
    if w != [] {
      NonSpaceOfWord(w[1..]);
    }
  }

  /** Stripping loses no non-whitespace character. */
  lemma StripKeepsNonSpace(s: string)
    ensures NonSpace(Strip(s)) == NonSpace(s)
  {
    var r := Strip(s);
    var pre, suf := StripPieces(s);
    NonSpaceAppend(pre + r, suf);
    NonSpaceAppend(pre, r);
    NonSpaceOfAllSpace(pre);
    NonSpaceOfAllSpace(suf);
  }

  /** The cells of a line are exactly its non-whitespace characters, in order. */
  lemma {:induction false} WordsKeepNonSpace(s: string)
    ensures Concat(Words(s)) == NonSpace(s)
    decreases |s|
  {
    if s == [] {
    } else if IsSpace(s[0]) {
      WordsKeepNonSpace(s[1..]);
    } else {
      var n := WordLen(s);
      WordsKeepNonSpace(s[n..]);
      assert s == s[..n] + s[n..];
      NonSpaceAppend(s[..n], s[n..]);
      NonSpaceOfWord(s[..n]);
      assert Concat(Words(s)) == s[..n] + Concat(Words(s[n..]));
    }
  }

  lemma {:induction false} WordLenOfWord(w: string, rest: string)
    requires IsWord(w) || w == []
    requires rest == [] || IsSpace(rest[0])
    ensures WordLen(w + rest) == |w|
  {
    if w != [] {
      assert (w + rest)[1..] == w[1..] + rest;
      WordLenOfWord(w[1..], rest);
    }
  }

  lemma WordsAfterWord(w: string, rest: string)
    requires IsWord(w)
    requires rest == [] || IsSpace(rest[0])
    ensures Words(w + rest) == [w] + Words(rest)
  {
    WordLenOfWord(w, rest);
    assert (w + rest)[..|w|] == w;
    assert (w + rest)[|w|..] == rest;
  }

  /** Whitespace before the text is skipped: it contributes no cell and splits no cell. */
  lemma {:induction false} WordsAfterSpace(sp: string, x: string)
    requires AllSpace(sp)
    ensures Words(sp + x) == Words(x)
    decreases |sp|
  {
    if sp != [] {
      assert (sp + x)[0] == sp[0];
      assert (sp + x)[1..] == sp[1..] + x;
      WordsAfterSpace(sp[1..], x);
    } else {
      assert sp + x == x;
    }
  }

  /**
   * The cells are the maximal non-whitespace runs: a run of whitespace, then
   * a word, then whitespace or the end, gives that word as the first cell,
   * and the rest splits on its own.
   */
  lemma WordsOfSpacedWord(sp: string, w: string, rest: string)
    requires AllSpace(sp) && IsWord(w)
    requires rest == [] || IsSpace(rest[0])
    ensures Words(sp + w + rest) == [w] + Words(rest)
  {
    Associate(sp, w, rest);
    WordsAfterSpace(sp, w + rest);
    WordsAfterWord(w, rest);
  }

  /** Splitting cells joined by single spaces gives the cells back. */
  lemma {:induction false} WordsOfJoinWords(ws: seq<string>)
    requires forall i :: 0 <= i < |ws| ==> IsWord(ws[i])
    ensures Words(JoinWords(ws)) == ws
  {
    if ws == [] {
    } else if |ws| == 1 {
      WordsAfterWord(ws[0], []);
      assert ws[0] + [] == ws[0];
    } else {
      var tail := JoinWords(ws[1..]);
      WordsOfJoinWords(ws[1..]);
      assert ws[0] + " " + tail == ws[0] + (" " + tail);
      WordsAfterWord(ws[0], " " + tail);
      assert (" " + tail)[1..] == tail;
    }
  }

  /** Joining the lines of a text that does not end in a line feed gives the text back. */
  lemma {:induction false} JoinSplitLines(s: string)
    requires s == [] || s[|s| - 1] != '\n'
    ensures JoinLines(SplitLines(s)) == s
    decreases |s|
  {
    if s != [] {
      var i := LineEnd(s);
      if i < |s| {
        var rest := s[i + 1..];
        assert rest != [];
        JoinSplitLines(rest);
        var ls := SplitLines(s);
        assert ls == [s[..i]] + SplitLines(rest);
        assert |ls| > 1 && ls[0] == s[..i] && ls[1..] == SplitLines(rest);
        assert JoinLines(ls) == s[..i] + "\n" + rest;
        SplitAtBreak(s, i);
      }
    }
  }

  lemma SplitAtBreak(s: string, i: nat)
    requires i < |s| && s[i] == '\n'
    ensures s == s[..i] + "\n" + s[i + 1..]
  {
    assert s[i..i + 1] == "\n";
    assert s == s[..i] + s[i..i + 1] + s[i + 1..];
  }

  lemma {:induction false} FlattenAppend(a: seq<seq<string>>, b: seq<seq<string>>)
    ensures Flatten(a + b) == Flatten(a) + Flatten(b)
  {
    if a == [] {
      assert a + b == b;
    } else {
      assert (a + b)[1..] == a[1..] + b;
      FlattenAppend(a[1..], b);
    }
  }

  lemma OneLineKeepsNonSpace(l: string)
    ensures Flatten(TokenizeLines([l])) == NonSpace(l)
  {
    TokenizeOneLine(l);
    if AllSpace(l) {
      NonSpaceOfAllSpace(l);
    } else {
      WordsKeepNonSpace(l);
      assert Flatten([Words(l)]) == Concat(Words(l)) + Flatten([]);
    }
  }

  lemma JoinLinesNonSpace(ls: seq<string>)
    requires |ls| > 1
    ensures NonSpace(JoinLines(ls)) == NonSpace(ls[0]) + NonSpace(JoinLines(ls[1..]))
  {
    var l, tail := ls[0], JoinLines(ls[1..]);
    assert JoinLines(ls) == l + "\n" + tail;
    NonSpaceAppend(l + "\n", tail);
    NonSpaceAppend(l, "\n");
    NonSpaceOfAllSpace("\n");
    assert NonSpace(l) + [] == NonSpace(l);
  }

  lemma TokenizeLinesHead(ls: seq<string>)
    requires ls != []
    ensures Flatten(TokenizeLines(ls)) == NonSpace(ls[0]) + Flatten(TokenizeLines(ls[1..]))
  {
    OneLineKeepsNonSpace(ls[0]);
    assert ls == [ls[0]] + ls[1..];
    TokenizeLinesAppend([ls[0]], ls[1..]);
    FlattenAppend(TokenizeLines([ls[0]]), TokenizeLines(ls[1..]));
  }

  lemma {:induction false} TokenizeLinesKeepNonSpace(ls: seq<string>)
    ensures Flatten(TokenizeLines(ls)) == NonSpace(JoinLines(ls))
  {
    if |ls| == 1 {
      OneLineKeepsNonSpace(ls[0]);
    } else if |ls| > 1 {
      TokenizeLinesKeepNonSpace(ls[1..]);
      TokenizeLinesHead(ls);
      JoinLinesNonSpace(ls);
    }
  }

  /**
   * The export drops whitespace and nothing else: reading the table row by row
   * and cell by cell gives the non-whitespace characters of the text, in order.
   */
  lemma TokenizeKeepsNonSpace(content: string)
    ensures Flatten(Tokenize(content)) == NonSpace(content)
  {
    var s := Strip(content);
    JoinSplitLines(s);
    TokenizeLinesKeepNonSpace(SplitLines(s));
    StripKeepsNonSpace(content);
  }

  /** Rows follow line order: the lines of two blocks give the rows of the first, then those of the second. */
  lemma {:induction false} TokenizeLinesAppend(a: seq<string>, b: seq<string>)
    ensures TokenizeLines(a + b) == TokenizeLines(a) + TokenizeLines(b)
  {
    if a == [] {
      assert a + b == b;
    } else {
      assert (a + b)[0] == a[0];
      assert (a + b)[1..] == a[1..] + b;
      TokenizeLinesAppend(a[1..], b);
      var head := if Strip(a[0]) == [] then [] else [Words(a[0])];
      Associate(head, TokenizeLines(a[1..]), TokenizeLines(b));
    }
  }

  /** A blank line gives no row; any other line gives exactly the row of its cells. */
  lemma TokenizeOneLine(l: string)
    ensures AllSpace(l) ==> TokenizeLines([l]) == []
    ensures !AllSpace(l) ==> TokenizeLines([l]) == [Words(l)]
  {
    assert [l][1..] == [];
  }

  lemma SplitLinesOfOneLine(s: string)
    requires s != [] && '\n' !in s
    ensures SplitLines(s) == [s]
  {
  }

  // ---------------------------------------------------------------------
  // Table -> text -> table

  /** A table written out as text: cells joined by single spaces, rows by line feeds. */
  function Render(rows: seq<seq<string>>): string {
    JoinLines(RowLines(rows))
  }

  /** A line of cells starts and ends with a cell character and holds no line feed. */
  lemma {:induction false} JoinWordsShape(ws: seq<string>)
    requires ws != [] && forall i :: 0 <= i < |ws| ==> IsWord(ws[i])
    ensures var l := JoinWords(ws); l != [] && !IsSpace(l[0]) && !IsSpace(l[|l| - 1]) && '\n' !in l
  {
    assert !IsSpace(ws[0][0]);
    assert '\n' !in ws[0];
    if |ws| > 1 {
      JoinWordsShape(ws[1..]);
      var t := JoinWords(ws[1..]);
      assert JoinWords(ws) == ws[0] + " " + t;
    }
  }

  /** Lines that start and end with a non-space character join into such a text. */
  lemma {:induction false} JoinLinesShape(ls: seq<string>)
    requires ls != []
    requires forall i :: 0 <= i < |ls| ==> ls[i] != [] && !IsSpace(ls[i][0]) && !IsSpace(ls[i][|ls[i]| - 1])
    ensures var s := JoinLines(ls); s != [] && !IsSpace(s[0]) && !IsSpace(s[|s| - 1])
  {
    if |ls| > 1 {
      JoinLinesShape(ls[1..]);
    }
  }

  /** A line without line feeds, then a line feed: that line comes first, then the lines of the rest. */
  lemma SplitLinesCons(l: string, t: string)
    requires l != [] && '\n' !in l
    ensures SplitLines(l + "\n" + t) == [l] + SplitLines(t)
  {
    var s := l + "\n" + t;
    assert s[|l|] == '\n';
    assert forall k :: 0 <= k < |l| ==> s[k] == l[k];
    assert LineEnd(s) == |l|;
    assert s[..|l|] == l;
    assert s[|l| + 1..] == t;
  }

  /** Splitting lines that were joined with line feeds gives them back. */
  lemma {:induction false} SplitJoinLines(ls: seq<string>)
    requires forall i :: 0 <= i < |ls| ==> ls[i] != [] && '\n' !in ls[i]
    ensures SplitLines(JoinLines(ls)) == ls
  {
    if |ls| == 1 {
      SplitLinesOfOneLine(ls[0]);
    } else if |ls| > 1 {
      assert JoinLines(ls) == ls[0] + "\n" + JoinLines(ls[1..]);
      SplitLinesCons(ls[0], JoinLines(ls[1..]));
      SplitJoinLines(ls[1..]);
      assert ls == [ls[0]] + ls[1..];
    }
  }

  lemma StripTrailingBreak(x: string)
    requires x == [] || (!IsSpace(x[0]) && !IsSpace(x[|x| - 1]))
    ensures Strip(x + "\n") == x
  {
    var s := x + "\n";
    if x == [] {
      assert s == "\n";
    } else {
      assert s[0] == x[0] && s[|x| - 1] == x[|x| - 1] && s[|x|] == '\n';
      assert LeadingSpace(s) == 0;
      assert TrailingStart(s) == |x|;
      assert s[..|x|] == x;
    }
  }

  /** The text lines of a table, one per row. */
  function RowLines(rows: seq<seq<string>>): (ls: seq<string>)
    ensures |ls| == |rows|
    ensures forall i :: 0 <= i < |rows| ==> ls[i] == JoinWords(rows[i])
  {
    if rows == [] then [] else [JoinWords(rows[0])] + RowLines(rows[1..])
  }

  lemma TokenizeRenderedRow(ws: seq<string>)
    requires ws != [] && forall j :: 0 <= j < |ws| ==> IsWord(ws[j])
    ensures TokenizeLines([JoinWords(ws)]) == [ws]
  {
    JoinWordsShape(ws);
    WordsOfJoinWords(ws);
    TokenizeOneLine(JoinWords(ws));
  }

  lemma {:induction false} TokenizeRenderedLines(rows: seq<seq<string>>)
    requires Clean(rows)
    ensures TokenizeLines(RowLines(rows)) == rows
  {
    if rows != [] {
      var line := JoinWords(rows[0]);
      TokenizeRenderedRow(rows[0]);
      TokenizeRenderedLines(rows[1..]);
      TokenizeLinesAppend([line], RowLines(rows[1..]));
      assert RowLines(rows) == [line] + RowLines(rows[1..]);
      assert rows == [rows[0]] + rows[1..];
    }
  }

  /**
   * A table whose cells are non-empty and whitespace-free and whose rows are
   * non-empty survives being written out as text (with the widget's final line
   * feed) and exported again.
   */
  lemma ExportRoundTrip(rows: seq<seq<string>>)
    requires Clean(rows)
    ensures Tokenize(Render(rows) + "\n") == rows
  {
    var ls := RowLines(rows);
    forall i | 0 <= i < |rows|
      ensures ls[i] != [] && !IsSpace(ls[i][0]) && !IsSpace(ls[i][|ls[i]| - 1]) && '\n' !in ls[i]
    {
      JoinWordsShape(rows[i]);
    }
    if rows != [] {
      JoinLinesShape(ls);
    }
    assert Render(rows) == JoinLines(ls);
    StripTrailingBreak(Render(rows));
    SplitJoinLines(ls);
    TokenizeRenderedLines(rows);
  }

  /**
   * A buffer holding two cells separated by a space (with the widget's final
   * line feed), such as "Hello World", exports as one row of those two cells.
   */
  lemma TokenizeTwoWords(a: string, b: string)
    requires IsWord(a) && IsWord(b)
    ensures Tokenize(a + " " + b + "\n") == [[a, b]]
  {
    var rows := [[a, b]];
    ExportRoundTrip(rows);
    var line := JoinWords(rows[0]);
    assert line == rows[0][0] + " " + JoinWords(rows[0][1..]);
    assert JoinWords(rows[0][1..]) == b;
    assert RowLines(rows) == [line];
    assert Render(rows) == a + " " + b;
  }
}

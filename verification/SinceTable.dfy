/** `flag-since.py`, `cells` and `rewrite`: setting the Since column of the flag tables in a Markdown
    page. `since` maps each flag to the release it first appeared in. */
module SinceTable {
  import opened Text

  const FLAG_HEADER := "| Flag | Value" + " | Default" + " | Description |"
  const SINCE_HEADER := "| Flag | Value" + " | Default" + " | Since" + " | Description |"
  const SINCE_RULE := "|------|-------" + "|---------" + "|-------" + "|-------------|"
  /** Counting cells from zero, Since is this one. */
  const SINCE := 3
  /** How many cells a flag row has, Since included. */
  const WIDTH := 5

  // ---------------------------------------------------------------- splitting

  /** `cell` written in front of the first part. */
  function Glued(cell: string, parts: seq<string>): (r: seq<string>)
    requires parts != []
    ensures |r| == |parts|
  {
    [cell + parts[0]] + parts[1..]
  }

  /** `s.split(c)` for one character. */
  function SplitOn(s: string, c: char): (parts: seq<string>)
    ensures parts != []
  {
    if s == [] then [""]
    else if s[0] == c then [""] + SplitOn(s[1..], c)
    else Glued([s[0]], SplitOn(s[1..], c))
  }

  /** A row cut at every `|` that no backslash escapes. */
  function Cells(row: string, escaped: bool): (parts: seq<string>)
    ensures parts != []
  {
    if row == [] then [""]
    else if row[0] == '|' && !escaped then [""] + Cells(row[1..], false)
    else Glued([row[0]], Cells(row[1..], row[0] == '\\' && !escaped))
  }

  method FindCells(row: string) returns (parts: seq<string>)
    ensures parts == Cells(row, false)
  {
    hide Cells;
    var cell, escaped := "", false;
    parts := [];
    GluedEmpty(Cells(row, false));
    assert row[0..] == row;
    for i := 0 to |row|
      invariant parts + Glued(cell, Cells(row[i..], escaped)) == Cells(row, false)
    {
      var c := row[i];
      CellsStep(row, i, escaped);
      if c == '|' && !escaped {
        var rest := Cells(row[i + 1..], false);
        GluedEmpty(rest);
        GluedCut(cell, rest);
        assert parts + ([cell] + rest) == (parts + [cell]) + rest;
        parts := parts + [cell];
        cell := [];
      } else {
        GluedTwice(cell, [c], Cells(row[i + 1..], c == '\\' && !escaped));
        cell := cell + [c];
      }
      escaped := c == '\\' && !escaped;
    }
    assert row[|row|..] == [];
    CellsEnd(escaped);
    GluedCut(cell, []);
    parts := parts + [cell];
  }

  lemma GluedEmpty(parts: seq<string>)
    requires parts != []
    ensures Glued("", parts) == parts
  {
    assert "" + parts[0] == parts[0];
  }

  lemma GluedCut(cell: string, rest: seq<string>)
    ensures Glued(cell, [""] + rest) == [cell] + rest
    ensures Glued(cell, [""]) == [cell]
  {
    assert cell + "" == cell;
  }

  lemma GluedTwice(a: string, b: string, parts: seq<string>)
    requires parts != []
    ensures Glued(a, Glued(b, parts)) == Glued(a + b, parts)
  {
    assert a + (b + parts[0]) == (a + b) + parts[0];
  }

  lemma CellsStep(row: string, i: nat, escaped: bool)
    requires i < |row|
    ensures Cells(row[i..], escaped) ==
            if row[i] == '|' && !escaped then [""] + Cells(row[i + 1..], false)
            else Glued([row[i]], Cells(row[i + 1..], row[i] == '\\' && !escaped))
  {
    assert row[i..][1..] == row[i + 1..];
  }

  lemma CellsEnd(escaped: bool)
    ensures Cells([], escaped) == [""]
  {
  }

  // ---------------------------------------------------------------- the flags a row names

  predicate EndsName(c: char) {
    c == '=' || c == ' ' || c == '['
  }

  /** The text up to the first `=`, space or `[`. */
  function FlagName(s: string): string {
    if s == [] || EndsName(s[0]) then [] else [s[0]] + FlagName(s[1..])
  }

  function DropDots(s: string): string {
    if s != [] && s[|s| - 1] == '.' then DropDots(s[..|s| - 1]) else s
  }

  /** The flag or argument that a token in backticks names, if any. */
  function TokenNames(token: string): seq<string> {
    if StartsWith(token, "--") then [FlagName(token[2..])]
    else if StartsWith(token, "<") then [DropDots(token)]
    else []
  }

  /** Every second token, starting with the second: those between backticks. */
  function NamesIn(tokens: seq<string>): seq<string> {
    if |tokens| < 2 then [] else TokenNames(tokens[1]) + NamesIn(tokens[2..])
  }

  function RowNames(first: string): seq<string> {
    NamesIn(SplitOn(first, '`'))
  }

  // ---------------------------------------------------------------- one line

  datatype Complaint =
    | NoSuchFlag(first: string)
    | DifferentReleases(first: string)
    | WrongWidth(first: string, width: int)

  predicate IsHeader(line: string) {
    RStrip(line) == FLAG_HEADER || RStrip(line) == SINCE_HEADER
  }

  predicate IsRow(line: string) {
    line != [] && line[0] == '|'
  }

  predicate IsRule(line: string) {
    StartsWith(line, "|-")
  }

  function FirstCell(line: string): string
    requires IsRow(line)
  {
    RowHasCells(line);
    Cells(line, false)[1]
  }

  lemma RowHasCells(line: string)
    requires IsRow(line)
    ensures |Cells(line, false)| >= 2 && Cells(line, false)[0] == ""
  {
  }

  /** What is wrong with a flag row, if anything. */
  function Complaints(line: string, since: map<string, string>): seq<Complaint>
    requires IsRow(line)
  {
    var first := Strip(FirstCell(line));
    var names := RowNames(first);
    var width := |Cells(line, false)| - 2;
    if names == [] || exists n :: n in names && n !in since then [NoSuchFlag(first)]
    else if exists n :: n in names && since[n] != since[names[0]] then [DifferentReleases(first)]
    else if width != WIDTH && width != WIDTH - 1 then [WrongWidth(first, width)]
    else []
  }

  /** The cells of a sound flag row with the Since cell set, or put in where there was none. */
  function NewCells(parts: seq<string>, cell: string): seq<string>
    requires |parts| - 2 == WIDTH || |parts| - 2 == WIDTH - 1
  {
    if |parts| - 2 == WIDTH then parts[1 + SINCE := cell] else parts[..1 + SINCE] + [cell] + parts[1 + SINCE..]
  }

  function Release(line: string, since: map<string, string>): string
    requires IsRow(line) && Complaints(line, since) == []
  {
    since[RowNames(Strip(FirstCell(line)))[0]]
  }

  function NewRow(line: string, since: map<string, string>): string
    requires IsRow(line)
  {
    if Complaints(line, since) != [] then line
    else Join("|", NewCells(Cells(line, false), " " + Release(line, since) + " "))
  }

  datatype Rewritten = Rewritten(line: string, inTable: bool, errors: seq<Complaint>)

  function RewriteLine(line: string, inTable: bool, since: map<string, string>): Rewritten {
    if IsHeader(line) then Rewritten(SINCE_HEADER, true, [])
    else if !inTable || !IsRow(line) then Rewritten(line, false, [])
    else if IsRule(line) then Rewritten(SINCE_RULE, true, [])
    else Rewritten(NewRow(line, since), true, Complaints(line, since))
  }

  // ---------------------------------------------------------------- the page

  datatype Page = Page(lines: seq<string>, errors: seq<Complaint>)

  function RewriteLines(lines: seq<string>, inTable: bool, since: map<string, string>): Page {
    if lines == [] then Page([], [])
    else
      var head := RewriteLine(lines[0], inTable, since);
      var rest := RewriteLines(lines[1..], head.inTable, since);
      Page([head.line] + rest.lines, head.errors + rest.errors)
  }

  function RewritePage(doc: string, since: map<string, string>): Page {
    RewriteLines(SplitOn(doc, '\n'), false, since)
  }

  function NewPage(doc: string, since: map<string, string>): string {
    Join("\n", RewritePage(doc, since).lines)
  }

  method SetSince(line: string, since: map<string, string>) returns (row: string, errors: seq<Complaint>)
    requires IsRow(line)
    ensures row == NewRow(line, since) && errors == Complaints(line, since)
  {
    hide Cells, Join, RowNames, Strip;
    RowHasCells(line);
    JoinCells(line, false);
    var parts := FindCells(line);
    var first := Strip(parts[1]);
    var names := RowNames(first);
    if names == [] || exists n :: n in names && n !in since {
      return line, [NoSuchFlag(first)];
    }
    if exists n :: n in names && since[n] != since[names[0]] {
      return line, [DifferentReleases(first)];
    }
    var cell := " " + since[names[0]] + " ";
    var width := |parts| - 2;
    errors := [];
    if width == WIDTH {
      parts := parts[1 + SINCE := cell];
    } else if width == WIDTH - 1 {
      parts := parts[..1 + SINCE] + [cell] + parts[1 + SINCE..];
    } else {
      errors := [WrongWidth(first, width)];
    }
    row := Join("|", parts);
  }

  method RewriteLoop(doc: string, since: map<string, string>) returns (page: string, errors: seq<Complaint>)
    ensures page == NewPage(doc, since) && errors == RewritePage(doc, since).errors
  {
    hide SplitOn, NewRow, Complaints, IsHeader, IsRule, RewriteLines;
    var lines := SplitOn(doc, '\n');
    ghost var all := RewriteLines(lines, false, since);
    var out: seq<string>, inTable := [], false;
    errors := [];
    assert lines[0..] == lines;
    for i := 0 to |lines|
      invariant out + RewriteLines(lines[i..], inTable, since).lines == all.lines
      invariant errors + RewriteLines(lines[i..], inTable, since).errors == all.errors
    {
      var line := lines[i];
      RewriteStep(lines, i, inTable, since, out, errors);
      if IsHeader(line) {
        inTable := true;
        out := out + [SINCE_HEADER];
        errors := errors + [];
        continue;
      }
      if !inTable || !IsRow(line) {
        inTable := false;
        out := out + [line];
        errors := errors + [];
        continue;
      }
      if IsRule(line) {
        out := out + [SINCE_RULE];
        errors := errors + [];
        continue;
      }
      var row, more := SetSince(line, since);
      out := out + [row];
      errors := errors + more;
    }
    assert lines[|lines|..] == [];
    RewriteEnd(inTable, since);
    assert out + [] == out && errors + [] == errors;
    page := Join("\n", out);
  }

  lemma RewriteStep(
    lines: seq<string>, i: nat, inTable: bool, since: map<string, string>, out: seq<string>, errors: seq<Complaint>)
    requires i < |lines|
    ensures var head := RewriteLine(lines[i], inTable, since);
            var rest := RewriteLines(lines[i + 1..], head.inTable, since);
            && out + RewriteLines(lines[i..], inTable, since).lines == (out + [head.line]) + rest.lines
            && errors + RewriteLines(lines[i..], inTable, since).errors == (errors + head.errors) + rest.errors
  {
    hide RewriteLine;
    assert lines[i..][1..] == lines[i + 1..];
  }

  lemma RewriteEnd(inTable: bool, since: map<string, string>)
    ensures RewriteLines([], inTable, since) == Page([], [])
  {
  }

  // ---------------------------------------------------------------- cells and their row

  lemma JoinGlued(sep: string, cell: string, parts: seq<string>)
    requires parts != []
    ensures Join(sep, Glued(cell, parts)) == cell + Join(sep, parts)
  {
    if |parts| > 1 {
      assert Glued(cell, parts)[1..] == parts[1..];
      assert (cell + parts[0]) + sep + Join(sep, parts[1..]) == cell + (parts[0] + sep + Join(sep, parts[1..]));
    }
  }

  lemma JoinCut(sep: string, parts: seq<string>)
    requires parts != []
    ensures Join(sep, [""] + parts) == sep + Join(sep, parts)
  {
    assert ([""] + parts)[1..] == parts;
    assert "" + sep == sep;
  }

  /** The cells joined again are the row, escaped pipes and all. */
  lemma {:induction false} JoinCells(row: string, escaped: bool)
    ensures Join("|", Cells(row, escaped)) == row
  {
    hide Join;
    if row == [] {
      JoinOne("|", "");
    } else if row[0] == '|' && !escaped {
      JoinCells(row[1..], false);
      JoinCut("|", Cells(row[1..], false));
    } else {
      var rest := Cells(row[1..], row[0] == '\\' && !escaped);
      JoinCells(row[1..], row[0] == '\\' && !escaped);
      JoinGlued("|", [row[0]], rest);
    }
  }

  lemma JoinOne(sep: string, part: string)
    ensures Join(sep, [part]) == part
  {
  }

  /** Whether a backslash is left open at the end of the text. */
  predicate LeftOpen(s: string, escaped: bool) {
    if s == [] then escaped else LeftOpen(s[1..], s[0] == '\\' && !escaped)
  }

  /** No `|` in the text cuts. */
  predicate Whole(s: string, escaped: bool) {
    s == [] || (!(s[0] == '|' && !escaped) && Whole(s[1..], s[0] == '\\' && !escaped))
  }

  /** What splits off as one cell: nothing in it cuts, and it does not escape the `|` after it. */
  predicate IsCell(s: string) {
    Whole(s, false) && !LeftOpen(s, false)
  }

  lemma {:induction false} CellsOfWhole(s: string, escaped: bool)
    requires Whole(s, escaped)
    ensures Cells(s, escaped) == [s]
  {
    if s != [] {
      CellsOfWhole(s[1..], s[0] == '\\' && !escaped);
      assert [s[0]] + s[1..] == s;
    }
  }

  lemma {:induction false} CellsCut(s: string, rest: string, escaped: bool)
    requires Whole(s, escaped) && !LeftOpen(s, escaped)
    ensures Cells(s + "|" + rest, escaped) == [s] + Cells(rest, false)
  {
    var row := s + "|" + rest;
    if s == [] {
      assert row[1..] == rest;
    } else {
      var next := s[0] == '\\' && !escaped;
      assert row[1..] == s[1..] + "|" + rest;
      CellsCut(s[1..], rest, next);
      assert [s[0]] + s[1..] == s;
      assert Glued([s[0]], [s[1..]] + Cells(rest, false)) == [s] + Cells(rest, false);
    }
  }

  /** Cells that split off whole come apart again as they were. */
  lemma {:induction false} CellsOfJoin(parts: seq<string>)
    requires parts != [] && (forall k :: 0 <= k < |parts| - 1 ==> IsCell(parts[k])) && Whole(parts[|parts| - 1], false)
    ensures Cells(Join("|", parts), false) == parts
  {
    hide Cells, Whole, LeftOpen;
    if |parts| == 1 {
      CellsOfWhole(parts[0], false);
    } else {
      CellsOfJoin(parts[1..]);
      CellsCut(parts[0], Join("|", parts[1..]), false);
    }
  }

  /** Each cell of a row splits off whole. */
  lemma {:induction false} CellsAreCells(row: string, escaped: bool, k: nat)
    requires k < |Cells(row, escaped)|
    ensures var cell := Cells(row, escaped)[k];
            var from := k == 0 && escaped;
            Whole(cell, from) && (k < |Cells(row, escaped)| - 1 ==> !LeftOpen(cell, from))
  {
    if row != [] {
      var next := row[0] == '\\' && !escaped;
      if row[0] == '|' && !escaped {
        if k > 0 {
          CellsAreCells(row[1..], false, k - 1);
        }
      } else {
        CellsAreCells(row[1..], next, k);
        var rest := Cells(row[1..], next);
        var cell := Cells(row, escaped)[k];
        if k == 0 {
          assert cell == [row[0]] + rest[0];
          assert cell[1..] == rest[0];
        } else {
          assert cell == rest[k];
        }
      }
    }
  }
}

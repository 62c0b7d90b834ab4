/** What rewriting the Since column changes, and that doing it again changes nothing. */
module SinceTheorems {
  import opened Text
  import opened SinceTable

  // ---------------------------------------------------------------- lines and their page

  lemma {:induction false} SplitHasNone(s: string, c: char, k: nat)
    requires k < |SplitOn(s, c)|
    ensures c !in SplitOn(s, c)[k]
  {
    if s != [] {
      if s[0] != c {
        SplitHasNone(s[1..], c, k);
      } else if k > 0 {
        SplitHasNone(s[1..], c, k - 1);
      }
    }
  }

  lemma {:induction false} SplitOfNone(s: string, c: char)
    requires c !in s
    ensures SplitOn(s, c) == [s]
  {
    if s != [] {
      SplitOfNone(s[1..], c);
      assert [s[0]] + s[1..] == s;
    }
  }

  lemma {:induction false} SplitCut(s: string, rest: string, c: char)
    requires c !in s
    ensures SplitOn(s + [c] + rest, c) == [s] + SplitOn(rest, c)
  {
    var all := s + [c] + rest;
    if s == [] {
      assert all[1..] == rest;
    } else {
      assert all[1..] == s[1..] + [c] + rest;
      SplitCut(s[1..], rest, c);
      assert [s[0]] + s[1..] == s;
      assert Glued([s[0]], [s[1..]] + SplitOn(rest, c)) == [s] + SplitOn(rest, c);
    }
  }

  lemma {:induction false} SplitJoin(parts: seq<string>, c: char)
    requires parts != [] && forall k :: 0 <= k < |parts| ==> c !in parts[k]
    ensures SplitOn(Join([c], parts), c) == parts
  {
    hide SplitOn;
    if |parts| == 1 {
      SplitOfNone(parts[0], c);
    } else {
      SplitJoin(parts[1..], c);
      SplitCut(parts[0], Join([c], parts[1..]), c);
    }
  }

  // ---------------------------------------------------------------- the Since cell

  /** Text that cannot disturb a row of a table or a line of the page. */
  predicate Quiet(s: string) {
    '|' !in s && '\\' !in s && '\n' !in s
  }

  lemma {:induction false} QuietIsCell(s: string)
    requires Quiet(s)
    ensures IsCell(s)
  {
    if s != [] {
      QuietIsCell(s[1..]);
    }
  }

  ghost predicate QuietVersions(since: map<string, string>) {
    forall n :: n in since ==> Quiet(since[n])
  }

  /** A sound flag row: one without complaints. */
  predicate SoundRow(line: string, since: map<string, string>) {
    IsRow(line) && Complaints(line, since) == []
  }

  function SinceCell(line: string, since: map<string, string>): string
    requires SoundRow(line, since)
  {
    " " + Release(line, since) + " "
  }

  lemma SinceCellIsQuiet(line: string, since: map<string, string>)
    requires SoundRow(line, since) && QuietVersions(since)
    ensures Quiet(SinceCell(line, since))
  {
    hide Cells, RowNames, Strip;
    var names := RowNames(Strip(FirstCell(line)));
    assert names[0] in names;
  }

  lemma SoundWidth(line: string, since: map<string, string>)
    requires SoundRow(line, since)
    ensures |Cells(line, false)| == 7 || |Cells(line, false)| == 6
  {
    hide Cells, RowNames, Strip;
  }

  /** The new row has the cells of the old one, with the Since cell set or put in. */
  lemma NewRowCells(line: string, since: map<string, string>)
    requires SoundRow(line, since) && QuietVersions(since)
    ensures |Cells(line, false)| == 7 || |Cells(line, false)| == 6
    ensures Cells(NewRow(line, since), false) == NewCells(Cells(line, false), SinceCell(line, since))
    ensures |Cells(NewRow(line, since), false)| == 7
  {
    hide Cells, Join, Complaints, Release;
    SoundWidth(line, since);
    var parts := Cells(line, false);
    var cell := SinceCell(line, since);
    SinceCellIsQuiet(line, since);
    QuietIsCell(cell);
    forall k | 0 <= k < |parts|
      ensures Whole(parts[k], false) && (k < |parts| - 1 ==> IsCell(parts[k]))
    {
      CellsAreCells(line, false, k);
    }
    NewCellsAreCells(parts, cell);
    CellsOfJoin(NewCells(parts, cell));
  }

  lemma NewCellsAreCells(parts: seq<string>, cell: string)
    requires |parts| == 7 || |parts| == 6
    requires IsCell(cell) && forall k :: 0 <= k < |parts| ==>
             Whole(parts[k], false) && (k < |parts| - 1 ==> IsCell(parts[k]))
    ensures var more := NewCells(parts, cell);
            && |more| == 7 && Whole(more[6], false)
            && forall k :: 0 <= k < 6 ==> IsCell(more[k])
  {
    hide Whole, LeftOpen;
  }

  // ---------------------------------------------------------------- what a rewrite changes

  /** `now` is `was` with only its Since cell different, and that cell holds the release of every flag
      the row names. */
  ghost predicate OnlySinceChanged(was: string, now: string, since: map<string, string>) {
    && SoundRow(was, since)
    && var a, b := Cells(was, false), Cells(now, false);
       && |b| == 7
       && b[..4] == a[..4]
       && (|a| == 7 ==> b[5..] == a[5..])
       && (|a| != 7 ==> |a| == 6 && b[5..] == a[4..])
       && forall n :: n in RowNames(Strip(a[1])) ==> n in since && b[4] == " " + since[n] + " "
  }

  lemma SameReleases(line: string, since: map<string, string>)
    requires SoundRow(line, since)
    ensures var names := RowNames(Strip(FirstCell(line)));
            names != [] && forall n :: n in names ==> n in since && since[n] == Release(line, since)
  {
    hide Cells, RowNames, Strip;
  }

  lemma NewRowChangesSince(line: string, since: map<string, string>)
    requires SoundRow(line, since) && QuietVersions(since)
    ensures OnlySinceChanged(line, NewRow(line, since), since)
  {
    hide Cells, RowNames, Strip, NewRow, Release, Complaints;
    NewRowCells(line, since);
    SameReleases(line, since);
    RowHasCells(line);
    var a, b := Cells(line, false), Cells(NewRow(line, since), false);
    assert b[4] == SinceCell(line, since);
    assert b[..4] == a[..4];
  }

  lemma RowWithComplaints(line: string, since: map<string, string>)
    requires IsRow(line)
    ensures Complaints(line, since) != [] ==> NewRow(line, since) == line
  {
    hide Cells, Complaints;
  }

  /** How a line of the page may change. */
  ghost predicate LineChange(was: string, now: string, since: map<string, string>) {
    || now == was
    || (IsHeader(was) && now == SINCE_HEADER)
    || (IsRule(was) && now == SINCE_RULE)
    || OnlySinceChanged(was, now, since)
  }

  lemma {:induction false} LinesChange(lines: seq<string>, inTable: bool, since: map<string, string>)
    requires QuietVersions(since)
    ensures var page := RewriteLines(lines, inTable, since).lines;
            |page| == |lines| && forall k :: 0 <= k < |lines| ==> LineChange(lines[k], page[k], since)
  {
    hide IsHeader, IsRule, NewRow, Complaints, OnlySinceChanged;
    if lines != [] {
      var head := RewriteLine(lines[0], inTable, since);
      LinesChange(lines[1..], head.inTable, since);
      HeadChange(lines[0], inTable, since);
      var page := RewriteLines(lines, inTable, since).lines;
      forall k | 0 <= k < |lines|
        ensures LineChange(lines[k], page[k], since)
      {
        if k > 0 {
          assert lines[k] == lines[1..][k - 1];
        }
      }
    }
  }

  lemma HeadChange(line: string, inTable: bool, since: map<string, string>)
    requires QuietVersions(since)
    ensures LineChange(line, RewriteLine(line, inTable, since).line, since)
  {
    hide IsHeader, IsRule, NewRow, Complaints, OnlySinceChanged;
    if !IsHeader(line) && inTable && IsRow(line) && !IsRule(line) {
      RowWithComplaints(line, since);
    }
    if !IsHeader(line) && inTable && IsRow(line) && !IsRule(line) && Complaints(line, since) == [] {
      NewRowChangesSince(line, since);
    }
  }

  lemma {:induction false} LinesStayLines(lines: seq<string>, inTable: bool, since: map<string, string>, k: nat)
    requires QuietVersions(since)
    requires k < |lines| && forall j :: 0 <= j < |lines| ==> '\n' !in lines[j]
    ensures |RewriteLines(lines, inTable, since).lines| == |lines|
    ensures '\n' !in RewriteLines(lines, inTable, since).lines[k]
  {
    hide IsHeader, IsRule, NewRow, Complaints;
    var head := RewriteLine(lines[0], inTable, since);
    LinesChange(lines, inTable, since);
    if k == 0 {
      HeadStaysLine(lines[0], inTable, since);
    } else {
      assert forall j :: 0 <= j < |lines[1..]| ==> lines[1..][j] == lines[j + 1];
      LinesStayLines(lines[1..], head.inTable, since, k - 1);
    }
  }

  lemma HeaderCharacters()
    ensures '\n' !in SINCE_HEADER && '`' !in SINCE_HEADER && '`' !in FLAG_HEADER
  {
    var a, b, c, d := "| Flag | Value", " | Default", " | Since", " | Description |";
    assert '\n' !in a && '`' !in a;
    assert '\n' !in b && '`' !in b;
    assert '\n' !in c && '`' !in c;
    assert '\n' !in d && '`' !in d;
    InFour('\n', a, b, c, d);
    InFour('`', a, b, c, d);
    InFour('`', a, b, [], d);
    assert a + b + [] + d == a + b + d;
  }

  lemma RuleCharacters()
    ensures '\n' !in SINCE_RULE
  {
    var a, b, c, d := "|------|-------", "|---------", "|-------", "|-------------|";
    assert '\n' !in a;
    assert '\n' !in b;
    assert '\n' !in c;
    assert '\n' !in d;
    InFour('\n', a, b, c, d);
  }

  lemma InFour(x: char, a: string, b: string, c: string, d: string)
    ensures x in a + b + c + d <==> x in a || x in b || x in c || x in d
  {
  }

  lemma HeadStaysLine(line: string, inTable: bool, since: map<string, string>)
    requires QuietVersions(since) && '\n' !in line
    ensures '\n' !in RewriteLine(line, inTable, since).line
  {
    hide IsHeader, IsRule, NewRow, Complaints;
    HeaderCharacters();
    RuleCharacters();
    if !IsHeader(line) && inTable && IsRow(line) && !IsRule(line) {
      RowWithComplaints(line, since);
    }
    if !IsHeader(line) && inTable && IsRow(line) && !IsRule(line) && Complaints(line, since) == [] {
      NewRowIsLine(line, since);
    }
  }

  lemma NewRowIsLine(line: string, since: map<string, string>)
    requires SoundRow(line, since) && QuietVersions(since) && '\n' !in line
    ensures '\n' !in NewRow(line, since)
  {
    hide Cells, Join, Complaints, Release;
    SoundWidth(line, since);
    SinceCellIsQuiet(line, since);
    var parts := Cells(line, false);
    var cell := SinceCell(line, since);
    JoinCells(line, false);
    JoinHas("|", parts);
    var more := NewCells(parts, cell);
    forall k | 0 <= k < |more|
      ensures '\n' !in more[k]
    {
      assert more[k] in parts || more[k] == cell;
    }
    JoinHasNot("|", more);
  }

  lemma {:induction false} JoinHas(sep: string, parts: seq<string>)
    requires '\n' !in Join(sep, parts)
    ensures forall p :: p in parts ==> '\n' !in p
  {
    if |parts| == 1 {
    } else if |parts| > 1 {
      assert parts[0] + sep + Join(sep, parts[1..]) == Join(sep, parts);
      JoinHas(sep, parts[1..]);
    }
  }

  lemma {:induction false} JoinHasNot(sep: string, parts: seq<string>)
    requires '\n' !in sep && forall k :: 0 <= k < |parts| ==> '\n' !in parts[k]
    ensures '\n' !in Join(sep, parts)
  {
    if |parts| > 1 {
      JoinHasNot(sep, parts[1..]);
    }
  }

  /** A rewrite keeps every line but the headers, the rules and the sound flag rows, and of a sound
      flag row everything but the Since cell. */
  lemma RewriteChanges(doc: string, since: map<string, string>)
    requires QuietVersions(since)
    ensures var before, after := SplitOn(doc, '\n'), SplitOn(NewPage(doc, since), '\n');
            |after| == |before| && forall k :: 0 <= k < |before| ==> LineChange(before[k], after[k], since)
  {
    hide SplitOn, RewriteLines, LineChange, Join;
    var lines := SplitOn(doc, '\n');
    LinesChange(lines, false, since);
    PageComesApart(doc, since);
  }

  lemma PageComesApart(doc: string, since: map<string, string>)
    requires QuietVersions(since)
    ensures SplitOn(NewPage(doc, since), '\n') == RewritePage(doc, since).lines
  {
    hide SplitOn, RewriteLines, Join;
    var lines := SplitOn(doc, '\n');
    forall k | 0 <= k < |lines|
      ensures '\n' !in lines[k]
    {
      SplitHasNone(doc, '\n', k);
    }
    var page := RewritePage(doc, since).lines;
    LinesChange(lines, false, since);
    forall k | 0 <= k < |page|
      ensures '\n' !in page[k]
    {
      LinesStayLines(lines, false, since, k);
    }
    SplitJoin(page, '\n');
  }

  // ---------------------------------------------------------------- fixpoint

  lemma {:induction false} LStripWithin(s: string, c: char)
    requires c in LStrip(s)
    ensures c in s
  {
    if s != [] && IsSpace(s[0]) {
      LStripWithin(s[1..], c);
    }
  }

  lemma StripWithin(s: string, c: char)
    requires c in Strip(s)
    ensures c in s
  {
    hide IsSpace, LStrip;
    var t := LStrip(s);
    assert Strip(s) == t[..|Strip(s)|];
    LStripWithin(s, c);
  }

  /** A row that names a flag holds a backtick. */
  lemma RowHasTick(line: string, since: map<string, string>)
    requires SoundRow(line, since)
    ensures '`' in FirstCell(line)
  {
    hide Cells, Strip, SplitOn;
    var first := Strip(FirstCell(line));
    if '`' !in first {
      SplitOfNone(first, '`');
    }
    StripWithin(FirstCell(line), '`');
  }

  lemma {:induction false} InJoin(sep: string, parts: seq<string>, k: nat, c: char)
    requires k < |parts| && c in parts[k]
    ensures c in Join(sep, parts)
  {
    if |parts| > 1 {
      assert Join(sep, parts) == parts[0] + sep + Join(sep, parts[1..]);
      if k > 0 {
        InJoin(sep, parts[1..], k - 1, c);
      }
    }
  }

  lemma NotHeader(line: string)
    requires '`' in line
    ensures !IsHeader(line)
  {
    hide IsSpace;
    HeaderCharacters();
    TickIsNoSpace();
    var r := RStrip(line);
    var k :| 0 <= k < |line| && line[k] == '`';
    assert k < |r| && r[k] == '`';
  }

  lemma TickIsNoSpace()
    ensures !IsSpace('`') && !IsSpace('|')
  {
  }

  /** How a row starts that joins cells of which the second is not empty. */
  lemma JoinStart(parts: seq<string>)
    requires |parts| >= 3 && parts[0] == "" && parts[1] != []
    ensures var row := Join("|", parts);
            |row| >= 2 && row[0] == '|' && row[1] == parts[1][0]
  {
    var rest := Join("|", parts[1..]);
    assert parts[1..][0] == parts[1];
    assert rest[0] == parts[1][0];
    assert Join("|", parts) == "" + "|" + rest;
  }

  lemma NewRowStarts(line: string, since: map<string, string>)
    requires SoundRow(line, since) && QuietVersions(since) && !IsRule(line)
    ensures var row := NewRow(line, since);
            IsRow(row) && !IsRule(row) && !IsHeader(row)
  {
    hide Cells, Join, Complaints, IsHeader, Release;
    NewRowCells(line, since);
    RowHasCells(line);
    RowHasTick(line, since);
    var parts := Cells(line, false);
    var more := NewCells(parts, SinceCell(line, since));
    JoinStart(more);
    JoinStart(parts);
    JoinCells(line, false);
    assert more[1] == parts[1];
    InJoin("|", more, 1, '`');
    var row := NewRow(line, since);
    NotHeader(row);
    TwoCharacters(line);
    TwoCharacters(row);
  }

  lemma TwoCharacters(s: string)
    requires |s| >= 2 && s[0] == '|'
    ensures IsRule(s) <==> s[1] == '-'
  {
    assert s[..2] == [s[0], s[1]];
  }

  lemma SameComplaints(line: string, row: string, since: map<string, string>)
    requires SoundRow(line, since) && IsRow(row)
    requires FirstCell(row) == FirstCell(line) && |Cells(row, false)| == 7
    ensures Complaints(row, since) == [] && Release(row, since) == Release(line, since)
  {
    hide Cells, RowNames, Strip;
  }

  lemma NewRowAgain(line: string, since: map<string, string>)
    requires SoundRow(line, since) && QuietVersions(since) && !IsRule(line)
    ensures var row := NewRow(line, since);
            IsRow(row) && Complaints(row, since) == [] && NewRow(row, since) == row
  {
    hide Cells, Join, Complaints, IsHeader, Release, IsRule, FirstCell;
    var row := NewRow(line, since);
    NewRowStarts(line, since);
    NewRowCells(line, since);
    SameFirst(line, row);
    SameComplaints(line, row, since);
    var more := Cells(row, false);
    assert more[4] == SinceCell(line, since);
    assert NewCells(more, SinceCell(line, since)) == more;
    JoinCells(row, false);
  }

  lemma SameFirst(line: string, row: string)
    requires IsRow(line) && IsRow(row) && |Cells(row, false)| >= 2 && |Cells(line, false)| >= 2
    ensures FirstCell(line) == Cells(line, false)[1] && FirstCell(row) == Cells(row, false)[1]
  {
    hide Cells;
  }

  lemma RStripNoop(s: string)
    requires s != [] && !IsSpace(s[|s| - 1])
    ensures RStrip(s) == s
  {
  }

  lemma HeaderAgain()
    ensures IsHeader(SINCE_HEADER)
  {
    hide IsSpace;
    TickIsNoSpace();
    RStripNoop(SINCE_HEADER);
  }

  lemma RuleAgain()
    ensures !IsHeader(SINCE_RULE) && IsRow(SINCE_RULE) && IsRule(SINCE_RULE)
  {
    hide IsSpace;
    TickIsNoSpace();
    RStripNoop(SINCE_RULE);
    assert SINCE_RULE[1] == '-' && SINCE_HEADER[1] == ' ' && FLAG_HEADER[1] == ' ';
    TwoCharacters(SINCE_RULE);
  }

  lemma LineAgain(line: string, inTable: bool, since: map<string, string>)
    requires QuietVersions(since)
    ensures var r := RewriteLine(line, inTable, since);
            RewriteLine(r.line, inTable, since) == r
  {
    hide IsHeader, IsRule, NewRow, Complaints;
    HeaderAgain();
    RuleAgain();
    if !IsHeader(line) && inTable && IsRow(line) && !IsRule(line) {
      RowWithComplaints(line, since);
    }
    if !IsHeader(line) && inTable && IsRow(line) && !IsRule(line) && Complaints(line, since) == [] {
      NewRowStarts(line, since);
      NewRowAgain(line, since);
    }
  }

  lemma {:induction false} LinesAgain(lines: seq<string>, inTable: bool, since: map<string, string>)
    requires QuietVersions(since)
    ensures var page := RewriteLines(lines, inTable, since);
            RewriteLines(page.lines, inTable, since) == page
  {
    hide RewriteLine;
    if lines != [] {
      var head := RewriteLine(lines[0], inTable, since);
      LineAgain(lines[0], inTable, since);
      LinesAgain(lines[1..], head.inTable, since);
      var page := RewriteLines(lines, inTable, since);
      assert page.lines[1..] == RewriteLines(lines[1..], head.inTable, since).lines;
    }
  }

  /** Rewriting a page again changes nothing, and complains about the same rows. */
  lemma RewriteIsFixpoint(doc: string, since: map<string, string>)
    requires QuietVersions(since)
    ensures var page := NewPage(doc, since);
            NewPage(page, since) == page && RewritePage(page, since).errors == RewritePage(doc, since).errors
  {
    hide SplitOn, RewriteLines, Join;
    PageComesApart(doc, since);
    LinesAgain(SplitOn(doc, '\n'), false, since);
  }
}

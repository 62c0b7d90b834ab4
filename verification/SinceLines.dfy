/** The table rewrite line by line: which lines are in a flag table is said of the lines above them, and
    what a row names of the text between its backticks. */
module SinceLines {
  import opened Text
  import opened SinceTable
  import opened SinceTheorems

  // ---------------------------------------------------------------- splitting

  lemma {:induction false} JoinSplit(s: string, c: char)
    ensures Join([c], SplitOn(s, c)) == s
  {
    hide Join;
    if s == [] {
      JoinOne([c], "");
    } else if s[0] == c {
      JoinSplit(s[1..], c);
      JoinCut([c], SplitOn(s[1..], c));
    } else {
      JoinSplit(s[1..], c);
      JoinGlued([c], [s[0]], SplitOn(s[1..], c));
    }
  }

  /** A text is split at exactly the places where the character stands. */
  lemma SplitOnIff(s: string, c: char, parts: seq<string>)
    ensures SplitOn(s, c) == parts <==>
            parts != [] && Join([c], parts) == s && forall k :: 0 <= k < |parts| ==> c !in parts[k]
  {
    hide SplitOn, Join;
    JoinSplit(s, c);
    forall k | 0 <= k < |SplitOn(s, c)|
      ensures c !in SplitOn(s, c)[k]
    {
      SplitHasNone(s, c, k);
    }
    if parts != [] && forall k :: 0 <= k < |parts| ==> c !in parts[k] {
      SplitJoin(parts, c);
    }
  }

  // ---------------------------------------------------------------- cells

  /** How many backslashes stand right before a place. */
  function Slashes(s: string, k: nat): nat
    requires k <= |s|
  {
    if k > 0 && s[k - 1] == '\\' then 1 + Slashes(s, k - 1) else 0
  }

  predicate IsOdd(n: nat) {
    n % 2 == 1
  }

  lemma {:induction false} OpenStep(s: string, c: char, escaped: bool)
    ensures LeftOpen(s + [c], escaped) == (c == '\\' && !LeftOpen(s, escaped))
    ensures Whole(s + [c], escaped) == (Whole(s, escaped) && (c == '|' ==> LeftOpen(s, escaped)))
  {
    if s == [] {
      assert (s + [c])[1..] == [];
    } else {
      assert (s + [c])[1..] == s[1..] + [c];
      OpenStep(s[1..], c, s[0] == '\\' && !escaped);
    }
  }

  /** A prefix ends in an open backslash exactly when the backslashes at its end are odd in number, and
      none of its bars cuts exactly when an odd number stands before each. */
  lemma {:induction false} OpenIff(s: string, k: nat)
    requires k <= |s|
    ensures LeftOpen(s[..k], false) <==> IsOdd(Slashes(s, k))
    ensures Whole(s[..k], false) <==> forall i :: 0 <= i < k && s[i] == '|' ==> IsOdd(Slashes(s, i))
  {
    hide LeftOpen, Whole;
    if k == 0 {
      NothingOpen();
    } else {
      OpenIff(s, k - 1);
      OpenStep(s[..k - 1], s[k - 1], false);
      assert s[..k - 1] + [s[k - 1]] == s[..k];
    }
  }

  lemma NothingOpen()
    ensures !LeftOpen([], false) && Whole([], false)
  {
  }

  /** Each `|` in the cell has an odd number of backslashes right before it. */
  predicate BarsEscaped(cell: string) {
    forall i :: 0 <= i < |cell| && cell[i] == '|' ==> IsOdd(Slashes(cell, i))
  }

  lemma CellIff(cell: string)
    ensures LeftOpen(cell, false) <==> IsOdd(Slashes(cell, |cell|))
    ensures Whole(cell, false) <==> BarsEscaped(cell)
  {
    hide LeftOpen, Whole, Slashes, IsOdd;
    OpenIff(cell, |cell|);
    assert cell[..|cell|] == cell;
  }

  /** A row is cut at exactly the bars with an even number of backslashes right before them. */
  lemma CellsIff(row: string, parts: seq<string>)
    ensures Cells(row, false) == parts <==>
            && parts != [] && Join("|", parts) == row && (forall k :: 0 <= k < |parts| ==> BarsEscaped(parts[k]))
            && forall k :: 0 <= k < |parts| - 1 ==> !IsOdd(Slashes(parts[k], |parts[k]|))
  {
    hide Cells, Join, Whole, LeftOpen, Slashes, IsOdd, BarsEscaped;
    JoinCells(row, false);
    forall k | 0 <= k < |Cells(row, false)|
      ensures var cell := Cells(row, false)[k];
              && BarsEscaped(cell)
              && (k < |Cells(row, false)| - 1 ==> !IsOdd(Slashes(cell, |cell|)))
    {
      CellsAreCells(row, false, k);
      CellIff(Cells(row, false)[k]);
    }
    forall k | 0 <= k < |parts|
      ensures LeftOpen(parts[k], false) <==> IsOdd(Slashes(parts[k], |parts[k]|))
      ensures Whole(parts[k], false) <==> BarsEscaped(parts[k])
    {
      CellIff(parts[k]);
    }
    if parts != [] && (forall k :: 0 <= k < |parts| ==> Whole(parts[k], false)) &&
       forall k :: 0 <= k < |parts| - 1 ==> !LeftOpen(parts[k], false) {
      assert forall k :: 0 <= k < |parts| - 1 ==> IsCell(parts[k]);
      CellsOfJoin(parts);
    }
  }

  // ---------------------------------------------------------------- names

  predicate NoEnd(s: string) {
    forall k :: 0 <= k < |s| ==> s[k] != '=' && s[k] != ' ' && s[k] != '['
  }

  /** The token is a flag by this name: two dashes, the name, and an end or what ends a name. */
  predicate IsFlag(token: string, name: string, rest: string) {
    && token == "--" + name + rest && NoEnd(name)
    && (rest == "" || rest[0] == '=' || rest[0] == ' ' || rest[0] == '[')
  }

  /** The token is an argument: it starts with an angle bracket, and its name is what stands before any
      dots at its end. */
  predicate IsArgument(token: string, name: string, dots: string) {
    && token != "" && token[0] == '<' && token == name + dots
    && (forall k :: 0 <= k < |dots| ==> dots[k] == '.') && (name != "" ==> name[|name| - 1] != '.')
  }

  lemma {:induction false} FlagNameOf(name: string, rest: string)
    requires NoEnd(name) && (rest == "" || rest[0] == '=' || rest[0] == ' ' || rest[0] == '[')
    ensures FlagName(name + rest) == name
  {
    if name == "" {
      assert name + rest == rest;
    } else {
      FlagNameOf(name[1..], rest);
      assert (name + rest)[1..] == name[1..] + rest;
    }
  }

  lemma {:induction false} FlagNameIs(s: string) returns (rest: string)
    ensures s == FlagName(s) + rest && NoEnd(FlagName(s))
    ensures rest == "" || rest[0] == '=' || rest[0] == ' ' || rest[0] == '['
  {
    if s == "" || EndsName(s[0]) {
      rest := s;
    } else {
      rest := FlagNameIs(s[1..]);
      assert s == [s[0]] + s[1..];
    }
  }

  lemma {:induction false} DropDotsOf(name: string, dots: string)
    requires (forall k :: 0 <= k < |dots| ==> dots[k] == '.') && (name != "" ==> name[|name| - 1] != '.')
    ensures DropDots(name + dots) == name
  {
    var n := |dots|;
    if n == 0 {
      assert name + dots == name;
    } else {
      DropDotsOf(name, dots[..n - 1]);
      assert (name + dots)[..|name| + n - 1] == name + dots[..n - 1];
    }
  }

  lemma {:induction false} DropDotsIs(s: string) returns (dots: string)
    ensures s == DropDots(s) + dots && (forall k :: 0 <= k < |dots| ==> dots[k] == '.')
    ensures DropDots(s) != "" ==> DropDots(s)[|DropDots(s)| - 1] != '.'
  {
    if s != [] && s[|s| - 1] == '.' {
      dots := DropDotsIs(s[..|s| - 1]);
      dots := dots + ".";
      assert s == s[..|s| - 1] + ".";
    } else {
      dots := "";
      assert s + "" == s;
    }
  }

  /** A token between backticks names a flag, an argument, or nothing. */
  lemma TokenNamesIff(token: string, name: string)
    ensures TokenNames(token) == [name] <==>
            || (exists rest :: IsFlag(token, name, rest))
            || (exists dots :: IsArgument(token, name, dots))
    ensures TokenNames(token) == [] <==> !(|token| >= 2 && token[..2] == "--") && !(token != "" && token[0] == '<')
  {
    hide FlagName, DropDots, NoEnd;
    assert token != "" ==> token[..1] == [token[0]];
    if StartsWith(token, "--") {
      assert token[0] == token[..2][0] == '-';
      var rest := FlagNameIs(token[2..]);
      assert token == token[..2] + token[2..];
      assert "--" + (FlagName(token[2..]) + rest) == "--" + FlagName(token[2..]) + rest;
      assert IsFlag(token, FlagName(token[2..]), rest);
    } else if StartsWith(token, "<") {
      var dots := DropDotsIs(token);
      assert IsArgument(token, DropDots(token), dots);
    }
    forall rest | IsFlag(token, name, rest)
      ensures TokenNames(token) == [name]
    {
      assert token[..2] == "--" && token[2..] == name + rest;
      FlagNameOf(name, rest);
    }
    forall dots | IsArgument(token, name, dots)
      ensures TokenNames(token) == [name]
    {
      DropDotsOf(name, dots);
      assert token[0] == '<';
    }
  }

  /** The names of every second part, from the second on. */
  function SecondNames(parts: seq<string>, k: nat): seq<string>
    decreases |parts| - k
  {
    if k >= |parts| then [] else (if k % 2 == 1 then TokenNames(parts[k]) else []) + SecondNames(parts, k + 1)
  }

  lemma {:induction false} NamesOfRest(parts: seq<string>, k: nat)
    requires k <= |parts| && k % 2 == 0
    ensures NamesIn(parts[k..]) == SecondNames(parts, k)
    decreases |parts| - k
  {
    hide TokenNames;
    if k + 1 < |parts| {
      NamesOfRest(parts, k + 2);
      assert parts[k..][2..] == parts[k + 2..];
      assert SecondNames(parts, k) == [] + SecondNames(parts, k + 1);
    } else {
      assert SecondNames(parts, k) == [];
    }
  }

  /** A cell names, in order, what stands between its backticks: in a text cut at every backtick, every
      second part. */
  lemma RowNamesAre(first: string, parts: seq<string>)
    requires parts != [] && Join("`", parts) == first && forall k :: 0 <= k < |parts| ==> '`' !in parts[k]
    ensures RowNames(first) == SecondNames(parts, 0)
  {
    hide SplitOn, Join, NamesIn;
    SplitOnIff(first, '`', parts);
    assert parts[0..] == parts;
    NamesOfRest(parts, 0);
  }

  // ---------------------------------------------------------------- complaints

  predicate AllKnown(names: seq<string>, since: map<string, string>) {
    names != [] && forall k :: 0 <= k < |names| ==> names[k] in since
  }

  predicate OneRelease(names: seq<string>, since: map<string, string>)
    requires AllKnown(names, since)
  {
    forall j, k :: 0 <= j < k < |names| ==> since[names[j]] == since[names[k]]
  }

  /** What is wrong with a row: the first of an unknown or missing name, names of different releases, and
      a number of cells that is neither four nor five. */
  lemma ComplaintsIff(line: string, since: map<string, string>)
    requires IsRow(line)
    ensures var first, width := Strip(FirstCell(line)), |Cells(line, false)| - 2;
            var names := RowNames(first);
            && (Complaints(line, since) == [NoSuchFlag(first)] <==> !AllKnown(names, since))
            && (Complaints(line, since) == [DifferentReleases(first)] <==>
                  AllKnown(names, since) && !OneRelease(names, since))
            && (Complaints(line, since) == [WrongWidth(first, width)] <==>
                  AllKnown(names, since) && OneRelease(names, since) && width != 4 && width != 5)
            && (Complaints(line, since) == [] <==>
                  AllKnown(names, since) && OneRelease(names, since) && (width == 4 || width == 5))
  {
    hide Cells, RowNames, Strip, FirstCell;
    var names := RowNames(Strip(FirstCell(line)));
    assert AllKnown(names, since) <==> names != [] && forall n :: n in names ==> n in since;
    if AllKnown(names, since) {
      assert names[0] in names;
      if forall n :: n in names ==> since[n] == since[names[0]] {
        assert forall k :: 0 <= k < |names| ==> names[k] in names;
      } else {
        var n :| n in names && since[n] != since[names[0]];
        var k :| 0 <= k < |names| && names[k] == n;
        assert 0 < k;
      }
    }
  }

  // ---------------------------------------------------------------- tables

  lemma HeaderIff(line: string)
    ensures IsHeader(line) <==>
            exists post :: AllSpace(post) && (line == FLAG_HEADER + post || line == SINCE_HEADER + post)
  {
    hide IsSpace;
    TickIsNoSpace();
    if IsHeader(line) {
      var r := RStrip(line);
      assert line == r + line[|r|..] && AllSpace(line[|r|..]);
    }
    forall post | AllSpace(post) && (line == FLAG_HEADER + post || line == SINCE_HEADER + post)
      ensures IsHeader(line)
    {
      if line == FLAG_HEADER + post {
        RStripPadding(FLAG_HEADER, post);
      } else {
        RStripPadding(SINCE_HEADER, post);
      }
    }
  }

  /** A header stands above line `k`, and every line between them starts with a pipe. */
  ghost predicate UnderHeader(lines: seq<string>, k: nat) {
    exists h: nat :: HeaderAbove(lines, k, h)
  }

  ghost predicate HeaderAbove(lines: seq<string>, k: nat, h: nat) {
    h < k <= |lines| && IsHeader(lines[h]) && forall j :: h < j < k ==> IsRow(lines[j])
  }

  /** Line `k` belongs to a table whose header stands above it. */
  ghost predicate InTable(lines: seq<string>, k: nat)
    requires k < |lines|
  {
    UnderHeader(lines, k) && IsRow(lines[k])
  }

  /** Line `k` is a row of a table, neither a header nor a rule. */
  ghost predicate IsFlagRow(lines: seq<string>, k: nat)
    requires k < |lines|
  {
    InTable(lines, k) && !IsHeader(lines[k]) && !IsRule(lines[k])
  }

  lemma UnderHeaderStep(lines: seq<string>, k: nat)
    requires k < |lines|
    ensures UnderHeader(lines, k + 1) <==> IsHeader(lines[k]) || (UnderHeader(lines, k) && IsRow(lines[k]))
  {
    hide IsHeader, IsRow;
    if IsHeader(lines[k]) {
      assert HeaderAbove(lines, k + 1, k);
    } else {
      if UnderHeader(lines, k + 1) {
        var h: nat :| HeaderAbove(lines, k + 1, h);
        assert HeaderAbove(lines, k, h);
      }
      if UnderHeader(lines, k) && IsRow(lines[k]) {
        var h: nat :| HeaderAbove(lines, k, h);
        assert HeaderAbove(lines, k + 1, h);
      }
    }
  }

  /** What a rewrite makes of line `k`. */
  ghost predicate LineIs(lines: seq<string>, k: nat, since: map<string, string>, now: string)
    requires k < |lines|
  {
    var was := lines[k];
    if IsHeader(was) then now == SINCE_HEADER
    else if !InTable(lines, k) then now == was
    else if IsRule(was) then now == SINCE_RULE
    else if Complaints(was, since) == [] then QuietVersions(since) ==> OnlySinceChanged(was, now, since)
    else now == was
  }

  /** The complaints about the flag rows from line `k` on, in order. */
  ghost function ComplaintsFrom(lines: seq<string>, k: nat, since: map<string, string>): seq<Complaint>
    requires k <= |lines|
    decreases |lines| - k
  {
    if k == |lines| then []
    else (if IsFlagRow(lines, k) then Complaints(lines[k], since) else []) + ComplaintsFrom(lines, k + 1, since)
  }

  lemma HeadIs(lines: seq<string>, k: nat, since: map<string, string>)
    requires k < |lines|
    ensures var head := RewriteLine(lines[k], UnderHeader(lines, k), since);
            && LineIs(lines, k, since, head.line)
            && head.inTable == UnderHeader(lines, k + 1)
            && head.errors == if IsFlagRow(lines, k) then Complaints(lines[k], since) else []
  {
    hide IsHeader, IsRule, NewRow, Complaints, UnderHeader, OnlySinceChanged;
    UnderHeaderStep(lines, k);
    if IsFlagRow(lines, k) {
      RowWithComplaints(lines[k], since);
      if Complaints(lines[k], since) == [] && QuietVersions(since) {
        NewRowChangesSince(lines[k], since);
      }
    }
  }

  lemma {:induction false} RewriteFrom(lines: seq<string>, k: nat, since: map<string, string>)
    requires k <= |lines|
    ensures var page := RewriteLines(lines[k..], UnderHeader(lines, k), since);
            && |page.lines| == |lines| - k
            && (forall j :: 0 <= j < |page.lines| ==> LineIs(lines, k + j, since, page.lines[j]))
            && page.errors == ComplaintsFrom(lines, k, since)
    decreases |lines| - k
  {
    hide RewriteLine, LineIs, IsFlagRow, UnderHeader;
    if k < |lines| {
      HeadIs(lines, k, since);
      RewriteFrom(lines, k + 1, since);
      assert lines[k..][0] == lines[k] && lines[k..][1..] == lines[k + 1..];
      var page := RewriteLines(lines[k..], UnderHeader(lines, k), since);
      var rest := RewriteLines(lines[k + 1..], UnderHeader(lines, k + 1), since);
      assert page.lines[0] == RewriteLine(lines[k], UnderHeader(lines, k), since).line;
      forall j | 0 < j < |page.lines|
        ensures LineIs(lines, k + j, since, page.lines[j])
      {
        assert page.lines[j] == rest.lines[j - 1];
        assert LineIs(lines, k + 1 + (j - 1), since, rest.lines[j - 1]);
      }
    }
  }

  lemma NothingAbove(lines: seq<string>)
    ensures !UnderHeader(lines, 0)
  {
  }

  /** Every line of a page: each header becomes the header with Since, and in a table each rule becomes
      the longer rule, each sound row has its Since cell set, and each other row is kept and complained
      about; the complaints are those and no others, in order. */
  lemma RewriteIs(doc: string, since: map<string, string>)
    ensures var lines, page := SplitOn(doc, '\n'), RewritePage(doc, since);
            && |page.lines| == |lines|
            && (forall k :: 0 <= k < |lines| ==> LineIs(lines, k, since, page.lines[k]))
            && page.errors == ComplaintsFrom(lines, 0, since)
  {
    hide SplitOn, RewriteLines, LineIs, ComplaintsFrom, UnderHeader;
    var lines := SplitOn(doc, '\n');
    NothingAbove(lines);
    assert lines[0..] == lines;
    RewriteFrom(lines, 0, since);
    forall k | 0 <= k < |lines|
      ensures LineIs(lines, k, since, RewritePage(doc, since).lines[k])
    {
      assert LineIs(lines, 0 + k, since, RewritePage(doc, since).lines[k]);
    }
  }
}

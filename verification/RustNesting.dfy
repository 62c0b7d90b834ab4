/** `check-unwrap.py`: the count a file carries in a block comment is the comment's nesting. */
module RustNesting {
  import opened Options
  import opened RustLexer
  import opened RustQuotes
  import opened NestedText
  import opened RustFile
  import RustScan

  // ---------------------------------------------------------------- inside a comment

  lemma {:induction false} WordsPass(alnum: char -> bool, line: string, i: nat, j: nat, depth: nat)
    requires i <= j <= |line| && depth >= 1 && forall k :: i <= k < j ==> !DelimiterAt(line, k)
    ensures Run(alnum, line, i, Block(depth)) == Run(alnum, line, j, Block(depth))
    decreases j - i
  {
    hide Run;
    if i < j {
      assert !DelimiterAt(line, i);
      RustScan.BlockTurn(alnum, line, i, depth);
      WordsPass(alnum, line, i + 1, j, depth);
    }
  }

  lemma PartPasses(alnum: char -> bool, line: string, i: nat, part: Part, depth: nat)
    requires PartAt(line, i, part) && depth >= 1 && depth + Value(part) >= 1
    ensures i + |Spelling(part)| <= |line|
    ensures Run(alnum, line, i, Block(depth)) == Run(alnum, line, i + |Spelling(part)|, Block(depth + Value(part)))
  {
    hide Run;
    if part.Words? {
      WordsPass(alnum, line, i, i + |part.text|, depth);
    } else {
      RustScan.BlockTurn(alnum, line, i, depth);
    }
  }

  lemma {:induction false} PartsPass(
    alnum: char -> bool, line: string, i: nat, parts: seq<Part>, after: string, depth: nat)
    requires StandsAt(line, i, parts, after) && StaysOpen(parts, depth)
    ensures i + |Written(parts)| <= |line| && depth + Net(parts) >= 1
    ensures Run(alnum, line, i, Block(depth)) == Run(alnum, line, i + |Written(parts)|, Block(depth + Net(parts)))
    decreases parts
  {
    hide Run, StaysOpen, Net, StandsAt, PartAt;
    StaysOpenNow(parts, depth);
    if parts == [] {
      NetOfNone();
      StandsWithin(line, i, parts, after);
    } else {
      FirstPart(line, i, parts, after);
      FirstOpen(parts, depth);
      PartPasses(alnum, line, i, parts[0], depth);
      PartsPass(alnum, line, i + |Spelling(parts[0])|, parts[1..], after, depth + Value(parts[0]));
    }
  }

  /** A line that stays inside a comment adds its openings to the count and takes its closings away. */
  lemma CarriedIsNesting(alnum: char -> bool, parts: seq<Part>, depth: nat)
    requires Clean(parts, "") && StaysOpen(parts, depth)
    ensures depth + Net(parts) >= 1
    ensures Strip(alnum, Written(parts), Carried(BLOCK, depth)) == Outcome("", Carried(BLOCK, depth + Net(parts)))
  {
    hide Run, StaysOpen, Net;
    var line := Written(parts);
    assert line[0..] == line == line + "";
    PartsPass(alnum, line, 0, parts, "", depth);
    RustScan.EndStep(alnum, line, Block(depth + Net(parts)));
  }

  /** The closing that takes the count to zero ends the comment, and the line goes on as code. */
  lemma CodeAfterClosing(alnum: char -> bool, parts: seq<Part>, after: string, depth: nat)
    requires Clean(parts, "*/" + after) && StaysOpen(parts, depth) && depth + Net(parts) == 1
    ensures var line := Written(parts) + ("*/" + after);
            Strip(alnum, line, Carried(BLOCK, depth)) == Run(alnum, line, |Written(parts)| + 2, Code)
  {
    hide Run, StaysOpen, Net;
    var line := Written(parts) + ("*/" + after);
    assert line[0..] == line;
    PartsPass(alnum, line, 0, parts, "*/" + after, depth);
    RustScan.BlockTurn(alnum, line, |Written(parts)|, 1);
  }

  // ---------------------------------------------------------------- a line cut short

  lemma {:induction false} HashesOfCut(line: string, c: nat, q: nat)
    requires q <= c <= |line|
    ensures HashesBefore(line[..c], q) == HashesBefore(line, q)
  {
    if q > 0 && line[q - 1] == '#' {
      HashesOfCut(line, c, q - 1);
    }
  }

  lemma RawOfCut(alnum: char -> bool, line: string, c: nat, q: nat)
    requires q <= c <= |line|
    ensures RawHashes(alnum, line[..c], q) == RawHashes(alnum, line, q)
  {
    HashesOfCut(line, c, q);
  }

  lemma CodeMoveOfCut(alnum: char -> bool, line: string, c: nat, i: nat)
    requires i < c <= |line|
    ensures CodeMove(alnum, line[..c], i) == CodeMove(alnum, line, i)
  {
    hide RawHashes;
    RawOfCut(alnum, line, c, i);
  }

  lemma StepOfCut(alnum: char -> bool, line: string, c: nat, i: nat, s: State)
    requires i < c <= |line|
    ensures Step(alnum, line[..c], i, s) == Step(alnum, line, i, s)
  {
    hide CodeMove;
    CodeMoveOfCut(alnum, line, c, i);
    if i > 0 {
      CodeMoveOfCut(alnum, line, c, i - 1);
    }
  }

  /** The automaton's state after the first `i` characters. */
  function StateAt(alnum: char -> bool, line: string, i: nat, s: State): State
    requires i <= |line|
  {
    if i == 0 then s else Step(alnum, line, i - 1, StateAt(alnum, line, i - 1, s)).state
  }

  lemma {:induction false} StateOfCut(alnum: char -> bool, line: string, c: nat, i: nat, s: State)
    requires i <= c <= |line|
    ensures StateAt(alnum, line[..c], i, s) == StateAt(alnum, line, i, s)
  {
    hide Step;
    if i > 0 {
      StateOfCut(alnum, line, c, i - 1, s);
      StepOfCut(alnum, line, c, i - 1, StateAt(alnum, line, i - 1, s));
    }
  }

  lemma {:induction false} RunFromState(alnum: char -> bool, line: string, j: nat, s: State)
    requires j <= |line|
    ensures Run(alnum, line, 0, s).next == Run(alnum, line, j, StateAt(alnum, line, j, s)).next
  {
    hide Run, Step;
    if j > 0 {
      RunFromState(alnum, line, j - 1, s);
      RustScan.OneStep(alnum, line, j - 1, StateAt(alnum, line, j - 1, s));
    }
  }

  lemma NextOfCut(alnum: char -> bool, line: string, c: nat, s: State)
    requires c <= |line|
    ensures Run(alnum, line[..c], 0, s).next == End(alnum, line[..c], StateAt(alnum, line, c, s)).next
  {
    hide Run, Step, End;
    RunFromState(alnum, line[..c], c, s);
    StateOfCut(alnum, line, c, c, s);
    RustScan.EndStep(alnum, line[..c], StateAt(alnum, line, c, s));
  }

  predicate InComment(s: State) {
    s.Block? || s.BlockStar? || s.BlockSlash?
  }

  lemma FromOutside(alnum: char -> bool, line: string, i: nat, s: State)
    requires i < |line| && !InComment(s)
    ensures var t := Step(alnum, line, i, s).state; InComment(t) ==> t == Block(1) && line[i] == '*'
  {
    hide RawHashes;
  }

  lemma EndInComment(alnum: char -> bool, line: string, s: State)
    ensures InComment(s) ==> End(alnum, line, s).next.kind == BLOCK
    ensures !InComment(s) ==> End(alnum, line, s).next.kind != BLOCK
  {
    hide RawHashes;
  }

  /** A slash and a star that open a comment put the automaton at its first level. */
  lemma OpeningState(alnum: char -> bool, line: string, i: nat, s: State)
    requires PairAt(line, i, '/', '*')
    requires Run(alnum, line[..i], 0, s).next == START && Run(alnum, line[..i + 2], 0, s).next == Carried(BLOCK, 1)
    ensures StateAt(alnum, line, i + 2, s) == Block(1)
  {
    hide Run, Step, End;
    var a := StateAt(alnum, line, i, s);
    NextOfCut(alnum, line, i, s);
    EndInComment(alnum, line[..i], a);
    FromOutside(alnum, line, i, a);
    var b := StateAt(alnum, line, i + 1, s);
    assert b == Step(alnum, line, i, a).state;
    FromOutside(alnum, line, i + 1, b);
    NextOfCut(alnum, line, i + 2, s);
    EndInComment(alnum, line[..i + 2], StateAt(alnum, line, i + 2, s));
    assert StateAt(alnum, line, i + 2, s) == Step(alnum, line, i + 1, b).state;
  }

  // ---------------------------------------------------------------- back to the opening

  /** However the line is cut at or after `j`, reading it from `i` comes to reading it from `j`. */
  ghost predicate Goes(alnum: char -> bool, line: string, i: nat, s: State, j: nat, t: State) {
    i <= j <= |line| &&
    forall c :: j <= c <= |line| ==> Run(alnum, line[..c], i, s).next == Run(alnum, line[..c], j, t).next
  }

  lemma GoesFarther(alnum: char -> bool, line: string, i: nat, s: State, j: nat, t: State, k: nat, u: State)
    requires Goes(alnum, line, i, s, j, t) && Goes(alnum, line, j, t, k, u)
    ensures Goes(alnum, line, i, s, k, u)
  {
    hide Run;
  }

  lemma GoesNow(alnum: char -> bool, line: string, i: nat, s: State, j: nat, t: State)
    requires Goes(alnum, line, i, s, j, t)
    ensures i <= j <= |line| && Run(alnum, line, i, s).next == Run(alnum, line, j, t).next
  {
    hide Run;
    assert line[..|line|] == line;
  }

  /** The states from which the scanner goes on in code or inside a literal. */
  predicate Plain(s: State) {
    s.Code? || s.CharBody? || s.Str? || s.Raw?
  }

  lemma SlashGoes(alnum: char -> bool, line: string, i: nat) returns (j: nat, t: State)
    requires i < |line| && line[i] == '/' && !PairAt(line, i, '/', '*')
    ensures Run(alnum, line, i, Code).next.kind == BLOCK ==> i < j && Plain(t) && Goes(alnum, line, i, Code, j, t)
  {
    hide Run;
    RustScan.SlashRun(alnum, line, i);
    j, t := i + 1, Code;
    if !PairAt(line, i, '/', '/') {
      forall c | j <= c <= |line|
        ensures Run(alnum, line[..c], i, Code).next == Run(alnum, line[..c], j, t).next
      {
        RustScan.SlashRun(alnum, line[..c], i);
      }
    }
  }

  lemma QuoteGoes(alnum: char -> bool, line: string, i: nat) returns (j: nat, t: State)
    requires i < |line| && line[i] == '"'
    ensures i < j && Plain(t) && Goes(alnum, line, i, Code, j, t)
  {
    hide Run, RawHashes;
    var h := RawHashes(alnum, line, i);
    j, t := i + 1, if h.None? then Str else Raw(h.value);
    forall c | j <= c <= |line|
      ensures Run(alnum, line[..c], i, Code).next == Run(alnum, line[..c], j, t).next
    {
      RawOfCut(alnum, line, c, i);
      RustScan.QuoteRun(alnum, line[..c], i);
    }
  }

  lemma TickGoes(alnum: char -> bool, line: string, i: nat) returns (j: nat, t: State)
    requires i < |line| && line[i] == '\''
    ensures Run(alnum, line, i, Code).next.kind == BLOCK ==> i < j && Plain(t) && Goes(alnum, line, i, Code, j, t)
  {
    hide Run;
    if i + 1 < |line| && line[i + 1] == '\\' {
      j, t := i + 3, CharBody;
      RustScan.EscapeRun(alnum, line, i);
      RustScan.SkipTwo(alnum, line, i + 1, CharBody);
      forall c | j <= c <= |line|
        ensures Run(alnum, line[..c], i, Code).next == Run(alnum, line[..c], j, t).next
      {
        RustScan.EscapeRun(alnum, line[..c], i);
        RustScan.SkipTwo(alnum, line[..c], i + 1, CharBody);
      }
    } else if i + 2 < |line| && line[i + 2] == '\'' {
      j, t := i + 3, Code;
      forall c | j <= c <= |line|
        ensures Run(alnum, line[..c], i, Code).next == Run(alnum, line[..c], j, t).next
      {
        RustScan.CharRun(alnum, line[..c], i);
      }
    } else {
      j, t := i + 1, Code;
      forall c | j <= c <= |line|
        ensures Run(alnum, line[..c], i, Code).next == Run(alnum, line[..c], j, t).next
      {
        RustScan.LifetimeRun(alnum, line[..c], i);
      }
    }
  }

  lemma OtherGoes(alnum: char -> bool, line: string, i: nat)
    requires i < |line| && !RustScan.Interesting(line[i])
    ensures Goes(alnum, line, i, Code, i + 1, Code)
  {
    hide Run;
    forall c | i + 1 <= c <= |line|
      ensures Run(alnum, line[..c], i, Code).next == Run(alnum, line[..c], i + 1, Code).next
    {
      RustScan.OneStep(alnum, line[..c], i, Code);
    }
  }

  lemma CodeGoes(alnum: char -> bool, line: string, i: nat) returns (j: nat, t: State)
    requires i < |line| && !PairAt(line, i, '/', '*')
    ensures Run(alnum, line, i, Code).next.kind == BLOCK ==> i < j && Plain(t) && Goes(alnum, line, i, Code, j, t)
  {
    hide Run, Goes;
    if line[i] == '/' {
      j, t := SlashGoes(alnum, line, i);
    } else if line[i] == '"' {
      j, t := QuoteGoes(alnum, line, i);
    } else if line[i] == '\'' {
      j, t := TickGoes(alnum, line, i);
    } else {
      j, t := i + 1, Code;
      OtherGoes(alnum, line, i);
    }
  }

  /** One or two characters of a string or of an escaped character literal. */
  lemma QuotedGoes(alnum: char -> bool, line: string, i: nat, s: State) returns (j: nat, t: State)
    requires i < |line| && (s == Str || s == CharBody)
    ensures Run(alnum, line, i, s).next.kind == BLOCK ==> i < j && Plain(t) && Goes(alnum, line, i, s, j, t)
  {
    hide Run;
    if line[i] == '\\' {
      j, t := i + 2, s;
      RustScan.SkipTwo(alnum, line, i, s);
      forall c | j <= c <= |line|
        ensures Run(alnum, line[..c], i, s).next == Run(alnum, line[..c], j, t).next
      {
        RustScan.SkipTwo(alnum, line[..c], i, s);
      }
    } else {
      j, t := i + 1, if line[i] == (if s == Str then '"' else '\'') then Code else s;
      forall c | j <= c <= |line|
        ensures Run(alnum, line[..c], i, s).next == Run(alnum, line[..c], j, t).next
      {
        RustScan.QuietStep(alnum, line[..c], i, s, t);
      }
    }
  }

  lemma RawGoes(alnum: char -> bool, line: string, i: nat, n: nat) returns (j: nat, t: State)
    requires i < |line|
    ensures i < j && Plain(t) && Goes(alnum, line, i, Raw(n), j, t)
  {
    hide Run;
    j, t := if Closes(line, i, n) then i + 1 + n else i + 1, if Closes(line, i, n) then Code else Raw(n);
    forall c | j <= c <= |line|
      ensures Run(alnum, line[..c], i, Raw(n)).next == Run(alnum, line[..c], j, t).next
    {
      RustScan.RawStep(alnum, line[..c], i, n);
      assert Closes(line[..c], i, n) <==> Closes(line, i, n);
    }
  }

  lemma PlainGoes(alnum: char -> bool, line: string, i: nat, s: State) returns (j: nat, t: State)
    requires i < |line| && Plain(s) && !(s.Code? && PairAt(line, i, '/', '*'))
    ensures Run(alnum, line, i, s).next.kind == BLOCK ==> i < j && Plain(t) && Goes(alnum, line, i, s, j, t)
  {
    hide Run, Goes;
    match s {
      case Code => j, t := CodeGoes(alnum, line, i);
      case Raw(n) => j, t := RawGoes(alnum, line, i, n);
      case _ => j, t := QuotedGoes(alnum, line, i, s);
    }
  }

  lemma OpeningGoes(alnum: char -> bool, line: string, i: nat)
    requires PairAt(line, i, '/', '*')
    ensures Goes(alnum, line, i, Code, i + 2, Block(1))
  {
    hide Run;
    forall c | i + 2 <= c <= |line|
      ensures Run(alnum, line[..c], i, Code).next == Run(alnum, line[..c], i + 2, Block(1)).next
    {
      RustScan.SlashRun(alnum, line[..c], i);
    }
  }

  lemma {:induction false} CleanOfCut(parts: seq<Part>, after: string, m: nat)
    requires Clean(parts, after) && 1 <= m <= |after|
    ensures Clean(parts, after[..m])
  {
    if parts != [] {
      CleanOfCut(parts[1..], after, m);
      var w := Written(parts);
      if parts[0].Words? {
        forall k | 0 <= k < |parts[0].text|
          ensures !DelimiterAt(w + after[..m], k)
        {
          assert !DelimiterAt(w + after, k);
          assert k < |w| && (w + after[..m])[k] == (w + after)[k] && (w + after[..m])[k + 1] == (w + after)[k + 1];
        }
      }
    }
  }

  lemma ClosingGoes(alnum: char -> bool, line: string, i: nat, depth: nat, parts: seq<Part>, after: string)
    requires i <= |line| && Splits(line[i..], depth, parts, after) && after != ""
    ensures Goes(alnum, line, i, Block(depth), i + |Written(parts)| + 2, Code)
  {
    hide Run, StaysOpen, Net, Clean;
    var q := i + |Written(parts)|;
    assert line[q..] == line[i..][|Written(parts)|..] == after;
    forall c | q + 2 <= c <= |line|
      ensures Run(alnum, line[..c], i, Block(depth)).next == Run(alnum, line[..c], q + 2, Code).next
    {
      var cut := line[..c];
      CleanOfCut(parts, after, c - q);
      assert cut[i..] == line[i..][..c - i] == Written(parts) + after[..c - q];
      PartsPass(alnum, cut, i, parts, after[..c - q], depth);
      assert cut[q] == line[q..][0] && cut[q + 1] == line[q..][1];
      RustScan.BlockTurn(alnum, cut, q, 1);
    }
  }

  predicate Spells(parts: seq<Part>, text: string) {
    Written(parts) == text && Clean(parts, "")
  }

  /** A comment that is open at `i` either stays open to the end of the line or goes on as code. */
  lemma BlockGoes(alnum: char -> bool, line: string, i: nat, depth: nat) returns (parts: seq<Part>, open: bool, j: nat)
    requires i <= |line| && depth >= 1
    ensures open ==> Spells(parts, line[i..]) && StaysOpen(parts, depth) && depth + Net(parts) >= 1
    ensures open ==> Run(alnum, line, i, Block(depth)).next == Carried(BLOCK, depth + Net(parts))
    ensures !open ==> i < j && Goes(alnum, line, i, Block(depth), j, Code)
  {
    hide Run, StaysOpen, Net, Clean, Goes;
    var after;
    parts, after := SplitExists(line[i..], depth);
    open, j := after == "", i + |Written(parts)| + 2;
    if open {
      assert Written(parts) + "" == Written(parts);
      PartsPass(alnum, line, i, parts, "", depth);
      RustScan.EndStep(alnum, line, Block(depth + Net(parts)));
    } else {
      ClosingGoes(alnum, line, i, depth, parts, after);
    }
  }

  /** A comment left open by a line that starts outside one was opened by a slash and star in code. */
  lemma {:induction false} Origin(alnum: char -> bool, line: string, i: nat, s: State)
    returns (p: nat, parts: seq<Part>)
    requires i <= |line| && Plain(s) && Run(alnum, line, i, s).next.kind == BLOCK
    ensures PairAt(line, p, '/', '*') && Goes(alnum, line, i, s, p, Code)
    ensures Spells(parts, line[p + 2..]) && StaysOpen(parts, 1)
    decreases |line| - i
  {
    hide Run, StaysOpen, Goes, Spells, Net;
    RustScan.EndStep(alnum, line, s);
    assert i < |line|;
    if s.Code? && PairAt(line, i, '/', '*') {
      var open, j;
      OpeningGoes(alnum, line, i);
      parts, open, j := BlockGoes(alnum, line, i + 2, 1);
      p := i;
      if open {
        StandsStill(alnum, line, i, Code);
      } else {
        GoesFarther(alnum, line, i, Code, i + 2, Block(1), j, Code);
        GoesNow(alnum, line, i, Code, j, Code);
        p, parts := Onward(alnum, line, i, s, j, Code);
      }
    } else {
      var j, t := PlainGoes(alnum, line, i, s);
      GoesNow(alnum, line, i, s, j, t);
      p, parts := Onward(alnum, line, i, s, j, t);
    }
  }

  lemma StandsStill(alnum: char -> bool, line: string, i: nat, s: State)
    requires i <= |line|
    ensures Goes(alnum, line, i, s, i, s)
  {
  }

  lemma {:induction false} Onward(alnum: char -> bool, line: string, i: nat, s: State, j: nat, t: State)
    returns (p: nat, parts: seq<Part>)
    requires i < j <= |line| && Goes(alnum, line, i, s, j, t) && Plain(t) && Run(alnum, line, j, t).next.kind == BLOCK
    ensures PairAt(line, p, '/', '*') && Goes(alnum, line, i, s, p, Code)
    ensures Spells(parts, line[p + 2..]) && StaysOpen(parts, 1)
    decreases |line| - i, 0
  {
    hide Run, StaysOpen, Goes, Spells, Net;
    p, parts := Origin(alnum, line, j, t);
    GoesFarther(alnum, line, i, s, j, t, p, Code);
  }

  // ---------------------------------------------------------------- files

  /** The file up to and into line `k`, of which the first `i` characters are left. */
  function Cut(lines: seq<string>, k: nat, i: nat): seq<string>
    requires k < |lines| && i <= |lines[k]|
  {
    lines[..k] + [lines[k][..i]]
  }

  /** A comment is opened at `i` in line `k`: cut short before the slash and star, the file ends
      outside everything; cut short behind them, it ends in a comment nested once. */
  ghost predicate Opens(alnum: char -> bool, lines: seq<string>, k: nat, i: nat) {
    && k < |lines| && PairAt(lines[k], i, '/', '*')
    && StripLines(alnum, Cut(lines, k, i)).next == START
    && StripLines(alnum, Cut(lines, k, i + 2)).next == Carried(BLOCK, 1)
  }

  /** The notes of the lines of a comment, line after line. */
  function Flat(notes: seq<seq<Part>>): seq<Part> {
    if notes == [] then [] else Flat(notes[..|notes| - 1]) + notes[|notes| - 1]
  }

  /** The notes spell what follows index `i` of line `k`. */
  ghost predicate Follows(lines: seq<string>, k: nat, i: nat, notes: seq<seq<Part>>) {
    && k < |lines| && i <= |lines[k]| && |notes| == |lines| - k
    && Spells(notes[0], lines[k][i..])
    && forall j :: 0 < j < |notes| ==> Spells(notes[j], lines[k + j])
  }

  /** A comment opened at `i` in line `k` is still open at the end of the file. */
  ghost predicate OpenSince(alnum: char -> bool, lines: seq<string>, k: nat, i: nat, notes: seq<seq<Part>>) {
    Opens(alnum, lines, k, i) && Follows(lines, k, i + 2, notes) && StaysOpen(Flat(notes), 1)
  }

  lemma CutNext(alnum: char -> bool, lines: seq<string>, k: nat, i: nat)
    requires k < |lines| && i <= |lines[k]|
    ensures StripLines(alnum, Cut(lines, k, i)).next ==
            Run(alnum, lines[k][..i], 0, Resume(StripLines(alnum, lines[..k]).next)).next
  {
    hide Run;
    var cut := Cut(lines, k, i);
    assert cut[..|cut| - 1] == lines[..k];
  }

  lemma NextLine(alnum: char -> bool, lines: seq<string>, k: nat)
    requires k < |lines|
    ensures StripLines(alnum, lines[..k + 1]).next ==
            Run(alnum, lines[k], 0, Resume(StripLines(alnum, lines[..k]).next)).next
  {
    hide Run;
    assert lines[..k + 1][..k] == lines[..k];
  }

  lemma FirstLine(alnum: char -> bool, lines: seq<string>, k: nat, i: nat, parts: seq<Part>)
    requires Opens(alnum, lines, k, i) && Spells(parts, lines[k][i + 2..]) && StaysOpen(parts, 1)
    ensures 1 + Net(parts) >= 1
    ensures StripLines(alnum, lines[..k + 1]).next == Carried(BLOCK, 1 + Net(parts))
  {
    hide Run, StripLines, StaysOpen, Net, Step, Clean;
    var line, s := lines[k], Resume(StripLines(alnum, lines[..k]).next);
    CutNext(alnum, lines, k, i);
    CutNext(alnum, lines, k, i + 2);
    OpeningState(alnum, line, i, s);
    RunFromState(alnum, line, i + 2, s);
    NextLine(alnum, lines, k);
    assert Written(parts) + "" == Written(parts);
    PartsPass(alnum, line, i + 2, parts, "", 1);
    RustScan.EndStep(alnum, line, Block(1 + Net(parts)));
  }

  lemma OpensInPrefix(alnum: char -> bool, lines: seq<string>, k: nat, i: nat, m: nat)
    requires k < m <= |lines|
    ensures Opens(alnum, lines, k, i) <==> Opens(alnum, lines[..m], k, i)
  {
    hide StripLines;
    assert lines[..m][..k] == lines[..k];
  }

  lemma {:induction false} CountSinceOpening(
    alnum: char -> bool, lines: seq<string>, k: nat, i: nat, notes: seq<seq<Part>>)
    requires OpenSince(alnum, lines, k, i, notes)
    ensures Net(Flat(notes)) >= 0
    ensures StripLines(alnum, lines).next == Carried(BLOCK, 1 + Net(Flat(notes)))
    decreases |lines|
  {
    hide StripLines, Opens, StaysOpen, Net, Spells, Strip;
    var n := |notes| - 1;
    StaysOpenNow(Flat(notes), 1);
    if n == 0 {
      assert Flat(notes) == notes[0] by {
        assert notes[..0] == [];
      }
      FirstLine(alnum, lines, k, i, notes[0]);
      assert lines[..k + 1] == lines;
    } else {
      var m := |lines| - 1;
      OpensInPrefix(alnum, lines, k, i, m);
      StaysOpenOfConcat(Flat(notes[..n]), notes[n], 1);
      NetOfConcat(Flat(notes[..n]), notes[n]);
      CountSinceOpening(alnum, lines[..m], k, i, notes[..n]);
      OneMoreLine(alnum, lines, notes[n], 1 + Net(Flat(notes[..n])));
    }
  }

  lemma OneMoreLine(alnum: char -> bool, lines: seq<string>, parts: seq<Part>, depth: nat)
    requires lines != [] && StripLines(alnum, lines[..|lines| - 1]).next == Carried(BLOCK, depth)
    requires Spells(parts, lines[|lines| - 1]) && StaysOpen(parts, depth)
    ensures depth + Net(parts) >= 1
    ensures StripLines(alnum, lines).next == Carried(BLOCK, depth + Net(parts))
  {
    hide StaysOpen, Net, Strip;
    CarriedIsNesting(alnum, parts, depth);
  }

  lemma OpensAtEnd(alnum: char -> bool, lines: seq<string>, p: nat, parts: seq<Part>)
    requires lines != []
    requires var line := lines[|lines| - 1];
             && PairAt(line, p, '/', '*')
             && Goes(alnum, line, 0, Resume(StripLines(alnum, lines[..|lines| - 1]).next), p, Code)
             && Spells(parts, line[p + 2..]) && StaysOpen(parts, 1)
    ensures OpenSince(alnum, lines, |lines| - 1, p, [parts])
  {
    hide Run, StripLines, StaysOpen, Net, Spells;
    var k := |lines| - 1;
    var line := lines[k];
    CutNext(alnum, lines, k, p);
    CutNext(alnum, lines, k, p + 2);
    RustScan.EndStep(alnum, line[..p], Code);
    RustScan.SlashRun(alnum, line[..p + 2], p);
    RustScan.EndStep(alnum, line[..p + 2], Block(1));
    assert Flat([parts]) == parts by {
      assert [parts][..0] == [];
    }
  }

  lemma {:induction false} FindOpening(alnum: char -> bool, lines: seq<string>)
    returns (k: nat, i: nat, notes: seq<seq<Part>>)
    requires StripLines(alnum, lines).next.kind == BLOCK
    ensures OpenSince(alnum, lines, k, i, notes)
    decreases |lines|
  {
    hide Run, StaysOpen, Net, Spells, Goes, OpenSince;
    var m := |lines| - 1;
    var line, before := lines[m], StripLines(alnum, lines[..m]).next;
    NextLine(alnum, lines, m);
    assert lines[..m + 1] == lines;
    StatesValid(alnum, lines[..m]);
    var parts, p;
    if before.kind == BLOCK {
      var open, j;
      parts, open, j := BlockGoes(alnum, line, 0, before.n);
      if open {
        assert line[0..] == line;
        k, i, notes := FindOpening(alnum, lines[..m]);
        StillOpen(alnum, lines, k, i, notes, parts);
        return k, i, notes + [parts];
      }
      GoesNow(alnum, line, 0, Block(before.n), j, Code);
      p, parts := Onward(alnum, line, 0, Block(before.n), j, Code);
    } else {
      p, parts := Origin(alnum, line, 0, Resume(before));
    }
    OpensAtEnd(alnum, lines, p, parts);
    return m, p, [parts];
  }

  lemma StillOpen(
    alnum: char -> bool, lines: seq<string>, k: nat, i: nat, notes: seq<seq<Part>>, parts: seq<Part>)
    requires lines != [] && OpenSince(alnum, lines[..|lines| - 1], k, i, notes)
    requires Spells(parts, lines[|lines| - 1]) && StaysOpen(parts, StripLines(alnum, lines[..|lines| - 1]).next.n)
    ensures OpenSince(alnum, lines, k, i, notes + [parts])
  {
    hide StripLines, StaysOpen, Net, Spells, Opens;
    var m := |lines| - 1;
    CountSinceOpening(alnum, lines[..m], k, i, notes);
    OpensInPrefix(alnum, lines, k, i, m);
    assert (notes + [parts])[..|notes|] == notes;
    StaysOpenOfConcat(Flat(notes), parts, 1);
    assert forall j :: 0 <= j < m ==> lines[..m][j] == lines[j];
  }

  /** At the end of any file: a block comment is open with a count of `n` exactly when some slash and
      star in code opened it, the text since never closed it, and `n` is one more than the openings
      less the closings in that text. */
  lemma NestingIff(alnum: char -> bool, lines: seq<string>, n: nat)
    ensures StripLines(alnum, lines).next == Carried(BLOCK, n) <==>
            exists k, i, notes :: OpenSince(alnum, lines, k, i, notes) && n == 1 + Net(Flat(notes))
  {
    hide StripLines, OpenSince, Net, Flat;
    if StripLines(alnum, lines).next.kind == BLOCK {
      var k, i, notes := FindOpening(alnum, lines);
      CountSinceOpening(alnum, lines, k, i, notes);
    }
    forall k, i, notes | OpenSince(alnum, lines, k, i, notes)
      ensures Net(Flat(notes)) >= 0 && StripLines(alnum, lines).next == Carried(BLOCK, 1 + Net(Flat(notes)))
    {
      CountSinceOpening(alnum, lines, k, i, notes);
    }
  }
}

/** `check-unwrap.py`: what removing comments and literals guarantees over a whole file. */
module RustFile {
  import opened RustLexer
  import RustScan

  /** The lines of a file with comments and literals removed, and what is open at its end. */
  datatype Stripped = Stripped(code: seq<string>, next: Carried)

  function StripLines(alnum: char -> bool, lines: seq<string>): Stripped {
    if lines == [] then Stripped([], START)
    else
      var before := StripLines(alnum, lines[..|lines| - 1]);
      var last := Strip(alnum, lines[|lines| - 1], before.next);
      Stripped(before.code + [last.kept], last.next)
  }

  /** The scanner's pass over a file, carrying the state from line to line. */
  method StripFile(alnum: char -> bool, lines: seq<string>) returns (code: seq<string>, next: Carried)
    ensures Stripped(code, next) == StripLines(alnum, lines)
    ensures Valid(next)
  {
    hide Strip;
    code, next := [], START;
    for k := 0 to |lines|
      invariant Valid(next)
      invariant Stripped(code, next) == StripLines(alnum, lines[..k])
    {
      var kept;
      assert lines[..k + 1][..k] == lines[..k];
      kept, next := RustScan.StripNoncode(alnum, lines[k], next);
      code := code + [kept];
    }
    assert lines[..|lines|] == lines;
  }

  // ---------------------------------------------------------------- states

  /** Block comments are nested at least once, in every state of the automaton. */
  predicate Sound(s: State) {
    match s
    case Block(depth) => depth >= 1
    case BlockStar(depth) => depth >= 1
    case BlockSlash(depth) => depth >= 1
    case _ => true
  }

  lemma StepSound(alnum: char -> bool, line: string, i: nat, s: State)
    requires i < |line| && Sound(s)
    ensures Sound(Step(alnum, line, i, s).state)
  {
  }

  lemma {:induction false} RunValid(alnum: char -> bool, line: string, i: nat, s: State)
    requires i <= |line| && Sound(s)
    ensures Valid(Run(alnum, line, i, s).next)
    decreases |line| - i
  {
    hide Step;
    if i < |line| {
      StepSound(alnum, line, i, s);
      RunValid(alnum, line, i + 1, Step(alnum, line, i, s).state);
    }
  }

  /** After any line of any file: only raw strings and comments carry a count, and a comment that
      is open is nested at least once. */
  lemma {:induction false} StatesValid(alnum: char -> bool, lines: seq<string>)
    ensures Valid(StripLines(alnum, lines).next)
  {
    hide Run;
    if lines != [] {
      StatesValid(alnum, lines[..|lines| - 1]);
      RunValid(alnum, lines[|lines| - 1], 0, Resume(StripLines(alnum, lines[..|lines| - 1]).next));
    }
  }

  // ---------------------------------------------------------------- what is kept

  predicate NoQuote(s: string) {
    '"' !in s
  }

  lemma StepKeepsNoQuote(alnum: char -> bool, line: string, i: nat, s: State)
    requires i < |line|
    ensures NoQuote(Step(alnum, line, i, s).kept)
  {
    hide RawHashes;
  }

  lemma {:induction false} RunKeepsNoQuote(alnum: char -> bool, line: string, i: nat, s: State)
    requires i <= |line|
    ensures NoQuote(Run(alnum, line, i, s).kept)
    decreases |line| - i
  {
    hide Step, RawHashes;
    if i < |line| {
      StepKeepsNoQuote(alnum, line, i, s);
      RunKeepsNoQuote(alnum, line, i + 1, Step(alnum, line, i, s).state);
    }
  }

  /** `part` is what is left of `whole` once some characters are taken out. */
  predicate Within(part: string, whole: string) {
    part == [] || (whole != [] && Within(if part[0] == whole[0] then part[1..] else part, whole[1..]))
  }

  lemma {:induction false} WithinMore(part: string, whole: string, c: char)
    requires Within(part, whole)
    ensures Within(part, [c] + whole)
    decreases |part|, |whole|
  {
    assert ([c] + whole)[1..] == whole;
    if part != [] && part[0] == c {
      if part[0] == whole[0] {
        WithinMore(part[1..], whole[1..], whole[0]);
        assert [whole[0]] + whole[1..] == whole;
      } else {
        WithinTail(part, whole);
      }
    }
  }

  lemma {:induction false} WithinTail(part: string, whole: string)
    requires part != [] && Within(part, whole)
    ensures Within(part[1..], whole)
    decreases |part|, |whole|, 0
  {
    if part[0] != whole[0] {
      WithinTail(part, whole[1..]);
    }
    WithinMore(part[1..], whole[1..], whole[0]);
    assert [whole[0]] + whole[1..] == whole;
  }

  lemma {:induction false} WithinSelf(s: string)
    ensures Within(s, s)
  {
    if s != [] {
      WithinSelf(s[1..]);
    }
  }

  lemma {:induction false} WithinTransitive(a: string, b: string, c: string)
    requires Within(a, b) && Within(b, c)
    ensures Within(a, c)
    decreases |c|
  {
    if a != [] {
      if b[0] == c[0] {
        WithinTransitive(if a[0] == b[0] then a[1..] else a, b[1..], c[1..]);
      } else {
        WithinTransitive(a, b, c[1..]);
        if a[0] == c[0] {
          WithinTail(a, c[1..]);
        }
      }
    }
  }

  lemma {:induction false} WithinConcat(a: string, b: string, x: string, y: string)
    requires Within(a, b) && Within(x, y)
    ensures Within(a + x, b + y)
    decreases |b|
  {
    if b == [] {
      assert a + x == x && b + y == y;
    } else {
      assert (b + y)[1..] == b[1..] + y;
      if a == [] {
        WithinConcat(a, b[1..], x, y);
        assert a + x == x;
        WithinMore(x, b[1..] + y, b[0]);
        assert [b[0]] + (b[1..] + y) == b + y;
      } else {
        assert (a + x)[1..] == a[1..] + x;
        WithinConcat(if a[0] == b[0] then a[1..] else a, b[1..], x, y);
      }
    }
  }

  /** The characters read that the automaton has not yet decided about, just before index `i`. */
  function Pending(line: string, i: nat, s: State): string
    requires i <= |line|
  {
    match s
    case Slash => "/"
    case Tick => "'"
    case TickOne => if i == 0 then "" else "'" + [line[i - 1]]
    case _ => ""
  }

  lemma CodeMoveWithin(alnum: char -> bool, line: string, i: nat)
    requires i < |line|
    ensures var m := CodeMove(alnum, line, i);
            Within(m.kept + Pending(line, i + 1, m.state), [line[i]])
  {
    hide RawHashes, Within;
    WithinSelf([line[i]]);
    NothingWithin([line[i]]);
    var m := CodeMove(alnum, line, i);
    assert m.kept + Pending(line, i + 1, m.state) == if line[i] == '"' then "" else [line[i]];
  }

  lemma NothingWithin(s: string)
    ensures Within("", s) && Within("" + "", s)
  {
    assert "" + "" == "";
  }

  lemma SimpleMoveWithin(alnum: char -> bool, line: string, i: nat, s: State)
    requires i < |line| && (s.Code? || s.Slash? || s.Tick? || s.Str? || s.Raw?)
    ensures var m := SimpleMove(alnum, line, i, s);
            Within(m.kept + Pending(line, i + 1, m.state), Pending(line, i, s) + [line[i]])
  {
    hide Within, CodeMove;
    var m := SimpleMove(alnum, line, i, s);
    var c := CodeMove(alnum, line, i);
    CodeMoveWithin(alnum, line, i);
    NothingWithin(Pending(line, i, s) + [line[i]]);
    match s {
      case Code => assert "" + [line[i]] == [line[i]];
      case Slash =>
        if line[i] != '/' && line[i] != '*' {
          WithinSelf("/");
          WithinConcat("/", "/", c.kept + Pending(line, i + 1, c.state), [line[i]]);
          assert "/" + (c.kept + Pending(line, i + 1, c.state)) == ("/" + c.kept) + Pending(line, i + 1, c.state);
        }
      case Tick =>
        WithinSelf("'" + [line[i]]);
        assert "" + ("'" + [line[i]]) == "'" + [line[i]];
      case _ =>
    }
  }

  lemma TickOneWithin(alnum: char -> bool, line: string, i: nat)
    requires 0 < i < |line|
    ensures var m := TickOneMove(alnum, line, i);
            Within(m.kept + Pending(line, i + 1, m.state), Pending(line, i, TickOne) + [line[i]])
  {
    hide Within, CodeMove, SimpleMove;
    var whole := Pending(line, i, TickOne) + [line[i]];
    NothingWithin(whole);
    if line[i] != '\'' {
      LifetimeWithin(alnum, line, i);
      var b := CodeMove(alnum, line, i - 1);
      var m := SimpleMove(alnum, line, i, b.state);
      assert "'" + (b.kept + (m.kept + Pending(line, i + 1, m.state))) ==
             ("'" + b.kept + m.kept) + Pending(line, i + 1, m.state);
      assert "'" + ([line[i - 1]] + [line[i]]) == whole;
    }
  }

  lemma LifetimeWithin(alnum: char -> bool, line: string, i: nat)
    requires 0 < i < |line|
    ensures var b := CodeMove(alnum, line, i - 1);
            var m := SimpleMove(alnum, line, i, b.state);
            Within("'" + (b.kept + (m.kept + Pending(line, i + 1, m.state))), "'" + ([line[i - 1]] + [line[i]]))
  {
    hide Within, CodeMove, SimpleMove, Pending;
    var b := CodeMove(alnum, line, i - 1);
    RustScan.AfterCode(alnum, line, i - 1);
    CodeMoveWithin(alnum, line, i - 1);
    var m := SimpleMove(alnum, line, i, b.state);
    SimpleMoveWithin(alnum, line, i, b.state);
    PendingOfSimple(line, i, b.state);
    var tail, pend := m.kept + Pending(line, i + 1, m.state), Pending(line, i, b.state);
    WithinSelf(b.kept);
    WithinConcat(b.kept, b.kept, tail, pend + [line[i]]);
    WithinSelf([line[i]]);
    WithinConcat(b.kept + pend, [line[i - 1]], [line[i]], [line[i]]);
    assert b.kept + (pend + [line[i]]) == (b.kept + pend) + [line[i]];
    WithinTransitive(b.kept + tail, (b.kept + pend) + [line[i]], [line[i - 1]] + [line[i]]);
    WithinSelf("'");
    WithinConcat("'", "'", b.kept + tail, [line[i - 1]] + [line[i]]);
  }

  lemma PendingOfSimple(line: string, i: nat, s: State)
    requires i <= |line| && !s.TickOne?
    ensures forall j :: 0 <= j <= |line| ==> Pending(line, j, s) == Pending(line, i, s)
  {
  }

  lemma StepWithin(alnum: char -> bool, line: string, i: nat, s: State)
    requires i < |line| && (s.TickOne? ==> i > 0)
    ensures var m := Step(alnum, line, i, s);
            Within(m.kept + Pending(line, i + 1, m.state), Pending(line, i, s) + [line[i]])
  {
    hide Within, SimpleMove, TickOneMove;
    NothingWithin(Pending(line, i, s) + [line[i]]);
    match s {
      case TickOne => TickOneWithin(alnum, line, i);
      case Code => SimpleMoveWithin(alnum, line, i, s);
      case Slash => SimpleMoveWithin(alnum, line, i, s);
      case Tick => SimpleMoveWithin(alnum, line, i, s);
      case Str => SimpleMoveWithin(alnum, line, i, s);
      case Raw(_) => SimpleMoveWithin(alnum, line, i, s);
      case _ =>
    }
  }

  lemma EndWithin(alnum: char -> bool, line: string, s: State)
    ensures Within(End(alnum, line, s).kept, Pending(line, |line|, s))
  {
    hide Within, CodeMove;
    NothingWithin(Pending(line, |line|, s));
    if s.TickOne? && line != [] {
      var i := |line| - 1;
      var m := CodeMove(alnum, line, i);
      RustScan.AfterCode(alnum, line, i);
      CodeMoveWithin(alnum, line, i);
      assert SimpleEnd(m.state).kept == Pending(line, i + 1, m.state);
      WithinSelf("'");
      WithinConcat("'", "'", m.kept + Pending(line, i + 1, m.state), [line[i]]);
      assert "'" + (m.kept + Pending(line, i + 1, m.state)) == ("'" + m.kept) + SimpleEnd(m.state).kept;
    } else {
      WithinSelf(Pending(line, |line|, s));
    }
  }

  lemma {:induction false} RunWithin(alnum: char -> bool, line: string, i: nat, s: State)
    requires i <= |line| && (s.TickOne? ==> i > 0)
    ensures Within(Run(alnum, line, i, s).kept, Pending(line, i, s) + line[i..])
    decreases |line| - i
  {
    hide Within, Step, End, Pending;
    if i == |line| {
      EndWithin(alnum, line, s);
      assert Pending(line, i, s) + line[i..] == Pending(line, i, s);
    } else {
      var m := Step(alnum, line, i, s);
      var rest := Run(alnum, line, i + 1, m.state).kept;
      RunWithin(alnum, line, i + 1, m.state);
      StepWithin(alnum, line, i, s);
      Chain(m.kept, rest, Pending(line, i + 1, m.state), Pending(line, i, s), line[i], line[i + 1..]);
      assert Pending(line, i, s) + line[i..] == Pending(line, i, s) + ([line[i]] + line[i + 1..]);
    }
  }

  lemma Chain(kept: string, rest: string, after: string, before: string, c: char, tail: string)
    requires Within(rest, after + tail) && Within(kept + after, before + [c])
    ensures Within(kept + rest, before + ([c] + tail))
  {
    hide Within;
    WithinSelf(kept);
    WithinConcat(kept, kept, rest, after + tail);
    WithinSelf(tail);
    WithinConcat(kept + after, before + [c], tail, tail);
    assert kept + (after + tail) == (kept + after) + tail;
    assert (before + [c]) + tail == before + ([c] + tail);
    WithinTransitive(kept + rest, (kept + after) + tail, before + ([c] + tail));
  }

  /** In any file, what is kept of a line is the line with some characters taken out, and holds no
      double quote; a line of plain code outside every literal is kept whole. */
  lemma StrippedLine(alnum: char -> bool, lines: seq<string>, k: nat)
    requires k < |lines|
    ensures |StripLines(alnum, lines).code| == |lines|
    ensures Within(StripLines(alnum, lines).code[k], lines[k]) && NoQuote(StripLines(alnum, lines).code[k])
    ensures StripLines(alnum, lines[..k]).next == START &&
            (forall j :: 0 <= j < |lines[k]| ==> !RustScan.Interesting(lines[k][j])) ==>
              StripLines(alnum, lines).code[k] == lines[k] && StripLines(alnum, lines[..k + 1]).next == START
  {
    hide Within, Run, NoQuote;
    CodeOfLine(alnum, lines, k);
    var line, s := lines[k], Resume(StripLines(alnum, lines[..k]).next);
    RunKeepsNoQuote(alnum, line, 0, s);
    RunWithin(alnum, line, 0, s);
    assert Pending(line, 0, s) + line[0..] == line;
    if s == Code && forall j :: 0 <= j < |line| ==> !RustScan.Interesting(line[j]) {
      RustScan.PlainToEnd(alnum, line, 0);
      assert line[0..] == line;
    }
  }

  lemma {:induction false} CodeOfLine(alnum: char -> bool, lines: seq<string>, k: nat)
    requires k < |lines|
    ensures |StripLines(alnum, lines).code| == |lines|
    ensures StripLines(alnum, lines).code[k] == Strip(alnum, lines[k], StripLines(alnum, lines[..k]).next).kept
    ensures StripLines(alnum, lines[..k + 1]).next == Strip(alnum, lines[k], StripLines(alnum, lines[..k]).next).next
  {
    hide Strip;
    var n := |lines| - 1;
    assert lines[..k + 1][..k] == lines[..k];
    OneCodePerLine(alnum, lines[..n]);
    if k < n {
      CodeOfLine(alnum, lines[..n], k);
      assert lines[..n][..k] == lines[..k];
    }
  }

  lemma {:induction false} OneCodePerLine(alnum: char -> bool, lines: seq<string>)
    ensures |StripLines(alnum, lines).code| == |lines|
  {
    hide Strip;
    if lines != [] {
      OneCodePerLine(alnum, lines[..|lines| - 1]);
    }
  }
}

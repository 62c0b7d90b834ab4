/** `check-unwrap.py`, the scanner itself: `strip_noncode` as the source writes it, proved equal to
    the one-character automaton of `RustLexer`. */
module RustScan {
  import opened Options
  import opened RustLexer
  import opened RustQuotes

  /** The characters that can begin something other than code. */
  predicate Interesting(c: char) {
    c == '/' || c == '"' || c == '\''
  }

  // ---------------------------------------------------------------- code

  lemma OneStep(alnum: char -> bool, line: string, i: nat, s: State)
    requires i < |line|
    ensures var m := Step(alnum, line, i, s);
            Run(alnum, line, i, s) == Before(m.kept, Run(alnum, line, i + 1, m.state))
  {
  }

  lemma BeforeNothing(o: Outcome)
    ensures Before("", o) == o
  {
  }

  lemma BeforeTwice(a: string, b: string, o: Outcome)
    ensures Before(a, Before(b, o)) == Before(a + b, o)
  {
    assert a + (b + o.kept) == (a + b) + o.kept;
  }

  /** A step that keeps nothing. */
  lemma QuietStep(alnum: char -> bool, line: string, i: nat, s: State, t: State)
    requires i < |line| && Step(alnum, line, i, s) == Move("", t)
    ensures Run(alnum, line, i, s) == Run(alnum, line, i + 1, t)
  {
    hide Run, Step;
    OneStep(alnum, line, i, s);
    BeforeNothing(Run(alnum, line, i + 1, t));
  }

  lemma {:induction false} PlainRun(alnum: char -> bool, line: string, i: nat, m: nat)
    requires i <= m <= |line| && forall k :: i <= k < m ==> !Interesting(line[k])
    ensures Run(alnum, line, i, Code) == Before(line[i..m], Run(alnum, line, m, Code))
    decreases m - i
  {
    hide Run;
    var rest := Run(alnum, line, m, Code);
    if i == m {
      BeforeNothing(rest);
    } else {
      PlainRun(alnum, line, i + 1, m);
      OneStep(alnum, line, i, Code);
      BeforeTwice([line[i]], line[i + 1..m], rest);
      assert [line[i]] + line[i + 1..m] == line[i..m];
    }
  }

  lemma PlainToEnd(alnum: char -> bool, line: string, i: nat)
    requires i <= |line| && forall k :: i <= k < |line| ==> !Interesting(line[k])
    ensures Run(alnum, line, i, Code) == Outcome(line[i..], START)
  {
    PlainRun(alnum, line, i, |line|);
    assert line[i..|line|] == line[i..];
    assert line[i..] + "" == line[i..];
  }

  lemma {:induction false} CommentRun(alnum: char -> bool, line: string, i: nat)
    requires i <= |line|
    ensures Run(alnum, line, i, Comment) == Outcome("", START)
    decreases |line| - i
  {
    hide Run;
    if i == |line| {
      EndStep(alnum, line, Comment);
    } else {
      CommentRun(alnum, line, i + 1);
      QuietStep(alnum, line, i, Comment, Comment);
    }
  }

  lemma EndStep(alnum: char -> bool, line: string, s: State)
    ensures Run(alnum, line, |line|, s) == End(alnum, line, s)
  {
  }

  /** The three readings of a `/` in code. */
  lemma SlashRun(alnum: char -> bool, line: string, i: nat)
    requires i < |line| && line[i] == '/'
    ensures i + 1 < |line| && line[i + 1] == '/' ==> Run(alnum, line, i, Code) == Outcome("", START)
    ensures i + 1 < |line| && line[i + 1] == '*' ==> Run(alnum, line, i, Code) == Run(alnum, line, i + 2, Block(1))
    ensures i + 1 == |line| || (line[i + 1] != '/' && line[i + 1] != '*') ==>
              Run(alnum, line, i, Code) == Before("/", Run(alnum, line, i + 1, Code))
  {
    hide Run, CodeMove;
    assert Step(alnum, line, i, Code) == Move("", Slash) by {
      SlashInCode(alnum, line, i);
    }
    QuietStep(alnum, line, i, Code, Slash);
    if i + 1 == |line| {
      EndStep(alnum, line, Slash);
      EndStep(alnum, line, Code);
    } else if line[i + 1] == '/' {
      QuietStep(alnum, line, i + 1, Slash, Comment);
      CommentRun(alnum, line, i + 2);
    } else if line[i + 1] == '*' {
      QuietStep(alnum, line, i + 1, Slash, Block(1));
    } else {
      OneStep(alnum, line, i + 1, Slash);
      OneStep(alnum, line, i + 1, Code);
      var m := CodeMove(alnum, line, i + 1);
      BeforeTwice("/", m.kept, Run(alnum, line, i + 2, m.state));
    }
  }

  lemma SlashInCode(alnum: char -> bool, line: string, i: nat)
    requires i < |line| && line[i] == '/'
    ensures CodeMove(alnum, line, i) == Move("", Slash)
  {
  }

  /** A character of code leaves the automaton in one of five states. */
  lemma AfterCode(alnum: char -> bool, line: string, i: nat)
    requires i < |line|
    ensures var s := CodeMove(alnum, line, i).state;
            s.Code? || s.Slash? || s.Tick? || s.Str? || s.Raw?
  {
  }

  /** A `'` that neither starts an escape nor is closed two characters on is a lifetime's. */
  lemma LifetimeRun(alnum: char -> bool, line: string, i: nat)
    requires i < |line| && line[i] == '\''
    requires i + 1 < |line| ==> line[i + 1] != '\\'
    requires i + 2 < |line| ==> line[i + 2] != '\''
    ensures Run(alnum, line, i, Code) == Before("'", Run(alnum, line, i + 1, Code))
  {
    hide Run, CodeMove;
    TickInCode(alnum, line, i);
    QuietStep(alnum, line, i, Code, Tick);
    if i + 1 == |line| {
      EndStep(alnum, line, Tick);
      EndStep(alnum, line, Code);
    } else {
      QuietStep(alnum, line, i + 1, Tick, TickOne);
      var m := CodeMove(alnum, line, i + 1);
      AfterCode(alnum, line, i + 1);
      OneStep(alnum, line, i + 1, Code);
      if i + 2 == |line| {
        EndStep(alnum, line, TickOne);
        EndStep(alnum, line, m.state);
        BeforeTwice("'", m.kept, SimpleEnd(m.state));
      } else {
        LifetimeStep(alnum, line, i + 2);
      }
    }
  }

  lemma TickInCode(alnum: char -> bool, line: string, i: nat)
    requires i < |line| && line[i] == '\''
    ensures CodeMove(alnum, line, i) == Move("", Tick)
  {
  }

  lemma LifetimeStep(alnum: char -> bool, line: string, i: nat)
    requires 0 < i < |line| && line[i] != '\''
    ensures var m := CodeMove(alnum, line, i - 1);
            Run(alnum, line, i, TickOne) == Before("'", Before(m.kept, Run(alnum, line, i, m.state)))
  {
    hide Run, CodeMove, SimpleMove;
    var m := CodeMove(alnum, line, i - 1);
    var t := SimpleMove(alnum, line, i, m.state);
    AfterCode(alnum, line, i - 1);
    SimpleStep(alnum, line, i, m.state);
    OneStep(alnum, line, i, TickOne);
    OneStep(alnum, line, i, m.state);
    var rest := Run(alnum, line, i + 1, t.state);
    BeforeTwice(m.kept, t.kept, rest);
    BeforeTwice("'", m.kept + t.kept, rest);
    assert ("'" + m.kept) + t.kept == "'" + (m.kept + t.kept);
  }

  lemma SimpleStep(alnum: char -> bool, line: string, i: nat, s: State)
    requires i < |line| && (s.Code? || s.Slash? || s.Tick? || s.Str? || s.Raw?)
    ensures Step(alnum, line, i, s) == SimpleMove(alnum, line, i, s)
  {
    hide SimpleMove;
  }

  /** A character literal of one character. */
  lemma CharRun(alnum: char -> bool, line: string, i: nat)
    requires i + 2 < |line| && line[i] == '\'' && line[i + 1] != '\\' && line[i + 2] == '\''
    ensures Run(alnum, line, i, Code) == Run(alnum, line, i + 3, Code)
  {
    hide Run, CodeMove;
    TickInCode(alnum, line, i);
    QuietStep(alnum, line, i, Code, Tick);
    QuietStep(alnum, line, i + 1, Tick, TickOne);
    QuietStep(alnum, line, i + 2, TickOne, Code);
  }

  /** The start of an escaped character literal. */
  lemma EscapeRun(alnum: char -> bool, line: string, i: nat)
    requires i + 1 < |line| && line[i] == '\'' && line[i + 1] == '\\'
    ensures Run(alnum, line, i, Code) == Run(alnum, line, i + 1, CharBody)
  {
    hide Run, CodeMove;
    TickInCode(alnum, line, i);
    QuietStep(alnum, line, i, Code, Tick);
    QuietStep(alnum, line, i + 1, Tick, CharEscape);
    QuietStep(alnum, line, i + 1, CharBody, CharEscape);
  }

  /** A backslash and the character after it, inside a character literal or a string. */
  lemma SkipTwo(alnum: char -> bool, line: string, j: nat, s: State)
    requires j < |line| && line[j] == '\\' && (s == CharBody || s == Str)
    ensures Run(alnum, line, j, s) ==
            if j + 2 <= |line| then Run(alnum, line, j + 2, s) else SimpleEnd(s)
  {
    hide Run;
    var t := if s == Str then StrEscape else CharEscape;
    QuietStep(alnum, line, j, s, t);
    if j + 1 == |line| {
      EndStep(alnum, line, t);
    } else {
      QuietStep(alnum, line, j + 1, t, s);
    }
  }

  // ---------------------------------------------------------------- the scanner's inner loops

  /** From the backslash of an escaped character literal to just past its closing quote. */
  method SkipChar(alnum: char -> bool, line: string, start: nat) returns (i: nat)
    requires start < |line| && line[start] == '\\'
    ensures start < i <= |line|
    ensures Run(alnum, line, start, CharBody) == Run(alnum, line, i, Code)
  {
    hide Run;
    EndStep(alnum, line, Code);
    EndStep(alnum, line, CharBody);
    var j := start;
    while j < |line|
      invariant start <= j <= |line| + 1
      invariant Run(alnum, line, start, CharBody) ==
                if j <= |line| then Run(alnum, line, j, CharBody) else Outcome("", START)
    {
      if line[j] == '\\' {
        SkipTwo(alnum, line, j, CharBody);
        j := j + 2;
      } else if line[j] == '\'' {
        QuietStep(alnum, line, j, CharBody, Code);
        return j + 1;
      } else {
        QuietStep(alnum, line, j, CharBody, CharBody);
        j := j + 1;
      }
    }
    i := |line|;
  }

  /** Inside a string, to just past its closing quote or to the end of the line. */
  method SkipString(alnum: char -> bool, line: string, start: nat) returns (i: nat, closed: bool)
    requires start <= |line|
    ensures closed ==> start < i <= |line| && Run(alnum, line, start, Str) == Run(alnum, line, i, Code)
    ensures !closed ==> i >= |line| && Run(alnum, line, start, Str) == Outcome("", Carried(STR, 0))
  {
    hide Run;
    EndStep(alnum, line, Str);
    i := start;
    closed := false;
    while i < |line|
      invariant start <= i <= |line| + 1
      invariant Run(alnum, line, start, Str) ==
                if i <= |line| then Run(alnum, line, i, Str) else Outcome("", Carried(STR, 0))
    {
      if line[i] == '\\' {
        SkipTwo(alnum, line, i, Str);
        i := i + 2;
      } else if line[i] == '"' {
        QuietStep(alnum, line, i, Str, Code);
        return i + 1, true;
      } else {
        QuietStep(alnum, line, i, Str, Str);
        i := i + 1;
      }
    }
  }

  /** `k` of the hashes of a closer that starts at `j` have been read. */
  lemma {:induction false} ClosingRun(alnum: char -> bool, line: string, j: nat, n: nat, k: nat)
    requires Closes(line, j, n) && k < n
    ensures Run(alnum, line, j + 1 + k, RawClose(n, k)) == Run(alnum, line, j + 1 + n, Code)
    decreases n - k
  {
    hide Run;
    if k + 1 == n {
      QuietStep(alnum, line, j + 1 + k, RawClose(n, k), Code);
    } else {
      QuietStep(alnum, line, j + 1 + k, RawClose(n, k), RawClose(n, k + 1));
      ClosingRun(alnum, line, j, n, k + 1);
    }
  }

  /** No closer starts at `j`, though a quote and `k` hashes do: the automaton falls back. */
  lemma {:induction false} FailedClose(alnum: char -> bool, line: string, j: nat, n: nat, k: nat)
    requires j + 1 + k <= |line| && k < n && line[j] == '"' && !Closes(line, j, n)
    requires forall m :: j < m <= j + k ==> line[m] == '#'
    ensures Run(alnum, line, j + 1 + k, RawClose(n, k)) == Run(alnum, line, j + 1 + k, Raw(n))
    decreases n - k
  {
    hide Run;
    var at := j + 1 + k;
    if at == |line| {
      EndStep(alnum, line, RawClose(n, k));
      EndStep(alnum, line, Raw(n));
    } else if line[at] == '#' {
      assert k + 1 < n by {
        assert Closes(line, j, k + 1);
      }
      QuietStep(alnum, line, at, RawClose(n, k), RawClose(n, k + 1));
      FailedClose(alnum, line, j, n, k + 1);
      QuietStep(alnum, line, at, Raw(n), Raw(n));
    } else {
      QuietStep(alnum, line, at, RawClose(n, k), RawMove(n, line[at]));
      QuietStep(alnum, line, at, Raw(n), RawMove(n, line[at]));
    }
  }

  lemma RawStep(alnum: char -> bool, line: string, j: nat, n: nat)
    requires j < |line|
    ensures Run(alnum, line, j, Raw(n)) ==
            if Closes(line, j, n) then Run(alnum, line, j + 1 + n, Code) else Run(alnum, line, j + 1, Raw(n))
  {
    hide Run;
    if line[j] != '"' {
      QuietStep(alnum, line, j, Raw(n), Raw(n));
    } else if n == 0 {
      QuietStep(alnum, line, j, Raw(n), Code);
    } else {
      QuietStep(alnum, line, j, Raw(n), RawClose(n, 0));
      if Closes(line, j, n) {
        ClosingRun(alnum, line, j, n, 0);
      } else {
        FailedClose(alnum, line, j, n, 0);
      }
    }
  }

  /** Inside a raw string, the automaton closes where `find` finds the closer. */
  lemma {:induction false} RawRun(alnum: char -> bool, line: string, j: nat, n: nat)
    requires j <= |line|
    ensures Run(alnum, line, j, Raw(n)) ==
            match FindCloser(line, j, n)
            case Some(at) => Run(alnum, line, at + 1 + n, Code)
            case None => Outcome("", Carried(RAW, n))
    decreases |line| - j
  {
    hide Run, Closes;
    if j == |line| {
      EndStep(alnum, line, Raw(n));
    } else {
      RawStep(alnum, line, j, n);
      if !Closes(line, j, n) {
        RawRun(alnum, line, j + 1, n);
      }
    }
  }

  /** One turn of the block-comment loop. */
  lemma BlockTurn(alnum: char -> bool, line: string, i: nat, depth: nat)
    requires i < |line| && depth >= 1
    ensures PairAt(line, i, '*', '/') ==>
              Run(alnum, line, i, Block(depth)) ==
                Run(alnum, line, i + 2, if depth == 1 then Code else Block(depth - 1))
    ensures PairAt(line, i, '/', '*') ==> Run(alnum, line, i, Block(depth)) == Run(alnum, line, i + 2, Block(depth + 1))
    ensures !PairAt(line, i, '*', '/') && !PairAt(line, i, '/', '*') ==>
              Run(alnum, line, i, Block(depth)) == Run(alnum, line, i + 1, Block(depth))
  {
    hide Run;
    var s := BlockMove(depth, line[i]);
    QuietStep(alnum, line, i, Block(depth), s);
    if i + 1 == |line| {
      EndStep(alnum, line, s);
      EndStep(alnum, line, Block(depth));
    } else {
      var t := Step(alnum, line, i + 1, s).state;
      QuietStep(alnum, line, i + 1, s, t);
      QuietStep(alnum, line, i + 1, Block(depth), BlockMove(depth, line[i + 1]));
    }
  }

  /** Inside a block comment, to just past its end or to the end of the line. */
  method SkipBlock(alnum: char -> bool, line: string, start: nat, depth: nat) returns (i: nat, n: nat)
    requires start <= |line| && depth >= 1
    ensures start <= i <= |line| && (n == 0 ==> start < i)
    ensures n == 0 ==> Run(alnum, line, start, Block(depth)) == Run(alnum, line, i, Code)
    ensures n > 0 ==> i == |line| && Run(alnum, line, start, Block(depth)) == Outcome("", Carried(BLOCK, n))
  {
    hide Run;
    i, n := start, depth;
    while i < |line|
      invariant start <= i <= |line| && n >= 1
      invariant Run(alnum, line, start, Block(depth)) == Run(alnum, line, i, Block(n))
    {
      BlockTurn(alnum, line, i, n);
      if PairAt(line, i, '*', '/') {
        n := n - 1;
        i := i + 2;
        if n == 0 {
          return;
        }
      } else if PairAt(line, i, '/', '*') {
        n := n + 1;
        i := i + 2;
      } else {
        i := i + 1;
      }
    }
    EndStep(alnum, line, Block(n));
  }

  // ---------------------------------------------------------------- the scanner

  /** The first character at or after `i` that can begin something other than code. */
  function NextInteresting(line: string, i: nat): (m: nat)
    requires i <= |line|
    ensures i <= m <= |line| && (forall k :: i <= k < m ==> !Interesting(line[k])) &&
            (m < |line| ==> Interesting(line[m]))
    decreases |line| - i
  {
    if i == |line| || Interesting(line[i]) then i else NextInteresting(line, i + 1)
  }

  /** The scanner at `i` in code: what it keeps, where it goes on, and in what state. */
  method CodeTurn(alnum: char -> bool, line: string, i: nat) returns (kept: string, j: nat, next: Carried)
    requires i < |line|
    ensures i < j <= |line| && Valid(next)
    ensures Run(alnum, line, i, Code) == Before(kept, Run(alnum, line, j, Resume(next)))
  {
    hide Run;
    var m := NextInteresting(line, i);
    if m == |line| {
      PlainToEnd(alnum, line, i);
      Finished(alnum, line, line[i..]);
      return line[i..], |line|, START;
    }
    kept := line[i..m];
    PlainRun(alnum, line, i, m);
    var ch := line[m];
    if ch == '/' {
      SlashRun(alnum, line, m);
      if PairAt(line, m, '/', '/') {
        Finished(alnum, line, kept);
        return kept, |line|, START;
      }
      if PairAt(line, m, '/', '*') {
        return kept, m + 2, Carried(BLOCK, 1);
      }
      BeforeTwice(kept, "/", Run(alnum, line, m + 1, Code));
      return kept + "/", m + 1, START;
    }
    if ch == '"' {
      var h := CountHashes(alnum, line, m);
      QuoteRun(alnum, line, m);
      match h {
        case None => return kept, m + 1, Carried(STR, 0);
        case Some(n) => return kept, m + 1, Carried(RAW, n);
      }
    }
    kept, j := TickTurn(alnum, line, m, kept);
    next := START;
  }

  lemma Finished(alnum: char -> bool, line: string, kept: string)
    ensures Before(kept, Run(alnum, line, |line|, Code)) == Outcome(kept, START)
  {
    assert kept + "" == kept;
  }

  lemma QuoteRun(alnum: char -> bool, line: string, i: nat)
    requires i < |line| && line[i] == '"'
    ensures Run(alnum, line, i, Code) ==
            match RawHashes(alnum, line, i)
            case None => Run(alnum, line, i + 1, Str)
            case Some(n) => Run(alnum, line, i + 1, Raw(n))
  {
    hide Run, RawHashes;
    match RawHashes(alnum, line, i) {
      case None => QuietStep(alnum, line, i, Code, Str);
      case Some(n) => QuietStep(alnum, line, i, Code, Raw(n));
    }
  }

  /** A `'` in code: an escaped character literal, a plain one, or a lifetime. */
  method TickTurn(alnum: char -> bool, line: string, i: nat, before: string) returns (kept: string, j: nat)
    requires i < |line| && line[i] == '\''
    ensures i < j <= |line|
    ensures Before(before, Run(alnum, line, i, Code)) == Before(kept, Run(alnum, line, j, Code))
  {
    hide Run;
    kept := before;
    if i + 1 < |line| && line[i + 1] == '\\' {
      EscapeRun(alnum, line, i);
      j := SkipChar(alnum, line, i + 1);
    } else if i + 2 < |line| && line[i + 2] == '\'' {
      CharRun(alnum, line, i);
      j := i + 3;
    } else {
      LifetimeRun(alnum, line, i);
      BeforeTwice(before, "'", Run(alnum, line, i + 1, Code));
      kept, j := before + "'", i + 1;
    }
  }

  /** What remains to be read at `i`; a string can carry the scanner one past the end. */
  ghost function Rest(alnum: char -> bool, line: string, i: nat, c: Carried): Outcome {
    if i <= |line| then Run(alnum, line, i, Resume(c)) else Outcome("", c)
  }

  /** `strip_noncode`: the scanner keeps what the automaton keeps, and carries what it carries. */
  method StripNoncode(alnum: char -> bool, line: string, state: Carried) returns (kept: string, next: Carried)
    requires Valid(state)
    ensures Outcome(kept, next) == Strip(alnum, line, state)
    ensures Valid(next)
  {
    hide Run;
    kept, next := "", state;
    var i: nat := 0;
    BeforeNothing(Run(alnum, line, 0, Resume(state)));
    while i < |line|
      invariant Valid(next)
      invariant Before(kept, Rest(alnum, line, i, next)) == Strip(alnum, line, state)
      decreases if i <= |line| then |line| - i else 0, i <= |line|
    {
      match next.kind {
        case CODE =>
          var more;
          more, i, next := CodeTurn(alnum, line, i);
          BeforeTwice(kept, more, Run(alnum, line, i, Resume(next)));
          kept := kept + more;
        case STR =>
          var closed;
          i, closed := SkipString(alnum, line, i);
          if closed {
            next := START;
          } else {
            StringGoesOn(alnum, line, i);
          }
        case RAW =>
          RawRun(alnum, line, i, next.n);
          match FindCloser(line, i, next.n) {
            case None =>
              RawGoesOn(alnum, line, next.n);
              i := |line|;
            case Some(j) =>
              i := j + 1 + next.n;
              next := START;
          }
        case BLOCK =>
          var n;
          i, n := SkipBlock(alnum, line, i, next.n);
          if n == 0 {
            next := START;
          } else {
            next := Carried(BLOCK, n);
            BlockGoesOn(alnum, line, n);
          }
      }
    }
    if i == |line| {
      EndStep(alnum, line, Resume(next));
    }
    assert kept + "" == kept;
  }

  lemma StringGoesOn(alnum: char -> bool, line: string, i: nat)
    requires i >= |line|
    ensures Rest(alnum, line, i, Carried(STR, 0)) == Outcome("", Carried(STR, 0))
  {
  }

  lemma RawGoesOn(alnum: char -> bool, line: string, n: nat)
    ensures Rest(alnum, line, |line|, Carried(RAW, n)) == Outcome("", Carried(RAW, n))
  {
  }

  lemma BlockGoesOn(alnum: char -> bool, line: string, n: nat)
    ensures Rest(alnum, line, |line|, Carried(BLOCK, n)) == Outcome("", Carried(BLOCK, n))
  {
  }
}

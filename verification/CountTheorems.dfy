/** Count conservation: what is printed for a run is what is counted from it. */
module CountTheorems {
  import opened Options
  import opened Results
  import opened Text
  import opened Sorting
  import opened Sums
  import opened TestCount
  import opened TestReport

  // ---------------------------------------------------------------- tallies add up

  lemma {:induction false} TallyOfConcat(a: seq<string>, b: seq<string>)
    ensures TallyLines(a + b) == Add(TallyLines(a), TallyLines(b))
  {
    hide ReadLine, TallyOf, Add;
    AddNothing(TallyLines(a));
    if b == [] {
      assert a + b == a;
    } else {
      var n := |b| - 1;
      TallyOfConcat(a, b[..n]);
      assert (a + b)[..|a| + n] == a + b[..n];
      AddAssociative(TallyLines(a), TallyLines(b[..n]), TallyOf(ReadLine(b[n])));
    }
  }

  lemma AddAssociative(a: Result<Tally>, b: Result<Tally>, c: Result<Tally>)
    ensures Add(Add(a, b), c) == Add(a, Add(b, c))
  {
  }

  lemma AddNothing(a: Result<Tally>)
    ensures Add(a, Ok(Tally(0, 0))) == a == Add(Ok(Tally(0, 0)), a)
  {
  }

  /** The output of two runs, one after the other, tallies to the sum of the two. */
  lemma TallyOfTexts(a: string, b: string)
    requires a == [] || a[|a| - 1] == '\n'
    ensures TallyText(a + b) == Add(TallyText(a), TallyText(b))
  {
    hide TallyLines, SplitLines;
    SplitLinesConcat(a, b);
    TallyOfConcat(SplitLines(a), SplitLines(b));
  }

  /** The output can be counted, to this total. */
  predicate Totals(r: Result<Tally>, total: nat) {
    r.Ok? && r.value.total == total
  }

  /** The tally of printed parts, each ended by a line feed. */
  function TallyParts(parts: seq<string>): Result<Tally> {
    if parts == [] then Ok(Tally(0, 0)) else Add(TallyText(parts[0] + "\n"), TallyParts(parts[1..]))
  }

  lemma {:induction false} TallyOfJoin(parts: seq<string>)
    requires parts != []
    ensures TallyText(JoinLines(parts)) == TallyParts(parts)
  {
    hide TallyText, Add;
    AddNothing(TallyText(parts[0] + "\n"));
    if |parts| > 1 {
      TallyOfJoin(parts[1..]);
      TallyOfTexts(parts[0] + "\n", JoinLines(parts[1..]));
    }
  }

  lemma {:induction false} TallyOfParts(a: seq<string>, b: seq<string>)
    ensures TallyParts(a + b) == Add(TallyParts(a), TallyParts(b))
  {
    hide TallyText, Add;
    AddNothing(TallyParts(b));
    if a == [] {
      assert a + b == b;
    } else {
      TallyOfParts(a[1..], b);
      AddAssociative(TallyText(a[0] + "\n"), TallyParts(a[1..]), TallyParts(b));
      assert (a + b)[1..] == a[1..] + b;
    }
  }

  lemma TallyOfPart(part: string)
    ensures TallyParts([part]) == TallyText(part + "\n")
  {
    hide TallyText, Add;
    assert [part][1..] == [];
    AddNothing(TallyText(part + "\n"));
  }

  lemma TallyOfPlainPart(part: string)
    requires NoBreaks(part)
    ensures TallyParts([part]) == TallyOf(ReadLine(part))
  {
    hide ReadLine, SplitLines, Add;
    TallyOfPart(part);
    SingleLine(part);
    assert [part][..0] == [];
    assert TallyLines([part]) == Add(TallyLines([]), TallyOf(ReadLine(part)));
    AddNothing(TallyOf(ReadLine(part)));
  }

  // ---------------------------------------------------------------- reading printed lines

  predicate Plain(s: string) {
    forall i :: 0 <= i < |s| ==> !IsBreak(s[i]) && s[i] != ESC
  }

  lemma {:induction false} PlainHasNoCodes(s: string)
    requires Plain(s)
    ensures StripAnsi(s) == s
  {
    if s != [] {
      PlainHasNoCodes(s[1..]);
    }
  }

  lemma FirstField(w: string, rest: string)
    requires (forall i :: 0 <= i < |w| ==> !IsSeparator(w[i])) && (rest == [] || !IsSeparator(rest[0]))
    ensures Fields(Spaced(w, rest)) == [w] + Fields(rest)
  {
    hide FieldLength, SeparatorLength;
    var s := Spaced(w, rest);
    assert forall i :: 0 <= i < |w| ==> s[i] == w[i];
    FieldEnd(s, |w|);
    assert s[|w|..] == " " + rest;
    SeparatorEnd(" " + rest, 1);
    assert s[..|w|] == w && s[|w| + 1..] == rest;
  }

  lemma FieldEnd(s: string, n: nat)
    requires n <= |s| && (forall i :: 0 <= i < n ==> !IsSeparator(s[i])) && (n < |s| ==> IsSeparator(s[n]))
    ensures FieldLength(s) == n
  {
    hide FieldLength, IsSeparator;
  }

  lemma SeparatorEnd(s: string, n: nat)
    requires n <= |s| && (forall i :: 0 <= i < n ==> IsSeparator(s[i])) && (n < |s| ==> !IsSeparator(s[n]))
    ensures SeparatorLength(s) == n
  {
    hide SeparatorLength, IsSeparator;
  }

  lemma PlainSpaced(w: string, rest: string)
    ensures Plain(Spaced(w, rest)) <==> Plain(w) && Plain(rest)
  {
    PlainConcat(w, " ");
    PlainConcat(w + " ", rest);
  }

  lemma PlainConcat(a: string, b: string)
    ensures Plain(a + b) <==> Plain(a) && Plain(b)
  {
    assert forall i :: 0 <= i < |a| ==> (a + b)[i] == a[i];
    assert forall i :: 0 <= i < |b| ==> (a + b)[|a| + i] == b[i];
  }

  lemma NumberIsPlain(n: nat)
    ensures Plain(ShowNat(n))
    ensures forall i :: 0 <= i < |ShowNat(n)| ==> !IsSeparator(ShowNat(n)[i])
  {
    hide ShowNat;
  }

  lemma ResultTailPlain(failed: nat, seconds: string)
    requires Plain(seconds)
    ensures Plain(ResultTail(failed, seconds)) && ResultTail(failed, seconds) != [] &&
            !IsSeparator(ResultTail(failed, seconds)[0])
  {
    hide ShowNat, Plain;
    NumberIsPlain(failed);
    PlainTailLiterals();
    var parts := ["passed; ", ShowNat(failed), " failed; ignored", " tests are not", " reported by",
                  " cargo-nextest;", " finished in ", seconds, "s"];
    PlainOfConcat(parts);
    assert Concat(parts) == "passed; " + Concat(parts[1..]);
  }

  lemma {:induction false} PlainOfConcat(parts: seq<string>)
    requires forall i :: 0 <= i < |parts| ==> Plain(parts[i])
    ensures Plain(Concat(parts))
  {
    if parts != [] {
      PlainOfConcat(parts[1..]);
      PlainConcat(parts[0], Concat(parts[1..]));
    }
  }

  lemma PlainTailLiterals()
    ensures Plain("passed; ") && Plain(" failed; ignored") && Plain(" tests are not") && Plain(" reported by")
    ensures Plain(" cargo-nextest;") && Plain(" finished in ") && Plain("s")
  {
  }

  lemma PlainLiterals()
    ensures Plain("test") && Plain("result:") && Plain("ok.") && Plain("FAILED.")
  {
  }

  lemma WordsHaveNoSeparators()
    ensures forall i :: 0 <= i < |"test"| ==> !IsSeparator("test"[i])
    ensures forall i :: 0 <= i < |"result:"| ==> !IsSeparator("result:"[i])
    ensures forall i :: 0 <= i < |"ok."| ==> !IsSeparator("ok."[i])
    ensures forall i :: 0 <= i < |"FAILED."| ==> !IsSeparator("FAILED."[i])
  {
  }

  lemma ResultLinePlain(passed: nat, failed: nat, seconds: string)
    requires Plain(seconds)
    ensures Plain(ResultLine(passed, failed, seconds))
  {
    hide ShowNat, Plain, ResultTail, Spaced;
    PlainLiterals();
    NumberIsPlain(passed);
    ResultTailPlain(failed, seconds);
    var verdict := if failed == 0 then "ok." else "FAILED.";
    var counted := Spaced(ShowNat(passed), ResultTail(failed, seconds));
    PlainSpaced(ShowNat(passed), ResultTail(failed, seconds));
    PlainSpaced(verdict, counted);
    PlainSpaced("result:", Spaced(verdict, counted));
    PlainSpaced("test", Spaced("result:", Spaced(verdict, counted)));
  }

  /** A result line reads as the passed count, and as a failure if anything failed. */
  lemma ResultLineReading(passed: nat, failed: nat, seconds: string)
    requires Plain(seconds)
    ensures ReadLine(ResultLine(passed, failed, seconds)) == if failed == 0 then Reading.Passed(passed) else Bad
  {
    hide ShowNat, Plain, ResultTail, Fields, ReadNat, StripAnsi;
    var line := ResultLine(passed, failed, seconds);
    ResultLinePlain(passed, failed, seconds);
    PlainHasNoCodes(line);
    ResultTailPlain(failed, seconds);
    NumberIsPlain(passed);
    WordsHaveNoSeparators();
    var verdict := if failed == 0 then "ok." else "FAILED.";
    var tail := ResultTail(failed, seconds);
    var counted := Spaced(ShowNat(passed), tail);
    FirstField(ShowNat(passed), tail);
    FirstField(verdict, counted);
    FirstField("result:", Spaced(verdict, counted));
    FirstField("test", Spaced("result:", Spaced(verdict, counted)));
    var fields := ["test"] + (["result:"] + ([verdict] + ([ShowNat(passed)] + Fields(tail))));
    assert Fields(line) == fields;
    assert fields[2] == verdict && fields[3] == ShowNat(passed);
    ReadOfShow(passed);
    assert line[..11] == "test result";
  }

  /** A test's own line is skipped unless its name makes it look like a result line. */
  lemma TestLineReading(name: string, verdict: string)
    requires Plain(name) && Plain(verdict)
    ensures Plain(TestLine(name, verdict))
    ensures !StartsWith(name, "result") ==> ReadLine(TestLine(name, verdict)) == Skip
  {
    hide Plain, ReadFields, StripAnsi;
    PlainLiterals();
    DotsArePlain();
    PlainConcat(name, " ... ");
    PlainConcat(name + " ... ", verdict);
    var rest := name + " ... " + verdict;
    PlainSpaced("test", rest);
    var line := TestLine(name, verdict);
    PlainHasNoCodes(line);
    if StartsWith(line, RESULT_PREFIX) {
      assert rest == line[5..];
      assert rest[..6] == line[..11][5..] == "result";
      PrefixOfName(name, " ... " + verdict, "result");
      assert name + (" ... " + verdict) == rest;
    }
  }

  /** A prefix without a space that a spaced text starts with is a prefix of its first word. */
  lemma PrefixOfName(name: string, more: string, prefix: string)
    requires more != [] && more[0] == ' ' && ' ' !in prefix
    ensures StartsWith(name + more, prefix) ==> StartsWith(name, prefix)
  {
    assert (name + more)[|name|] == ' ';
    if StartsWith(name + more, prefix) {
      assert forall i :: 0 <= i < |prefix| ==> (name + more)[i] == prefix[i];
    }
  }

  lemma DotsArePlain()
    ensures Plain(" ... ") && Plain("ok") && Plain("     Running ") && Plain("")
  {
  }

  lemma RunningLineReading(name: string)
    requires Plain(name)
    ensures Plain("     Running " + name) && ReadLine("     Running " + name) == Skip
    ensures ReadLine("") == Skip
  {
    hide Plain, ReadFields, StripAnsi;
    DotsArePlain();
    PlainConcat("     Running ", name);
    PlainHasNoCodes("     Running " + name);
    PlainHasNoCodes("");
    assert ("     Running " + name)[0] == ' ';
  }

  lemma PlainHasNoBreaks(s: string)
    requires Plain(s)
    ensures NoBreaks(s)
  {
  }

  // ---------------------------------------------------------------- one binary

  /** The tally of a printed result line. */
  lemma TallyOfResultLine(passed: nat, failed: nat, seconds: string)
    requires Plain(seconds)
    ensures TallyParts([ResultLine(passed, failed, seconds)]) == if failed == 0 then Ok(Tally(passed, 1)) else Refused
  {
    hide ResultLine, ReadLine;
    ResultLinePlain(passed, failed, seconds);
    PlainHasNoBreaks(ResultLine(passed, failed, seconds));
    ResultLineReading(passed, failed, seconds);
    TallyOfPlainPart(ResultLine(passed, failed, seconds));
  }

  lemma TallyOfBlank()
    ensures TallyParts([""]) == Ok(Tally(0, 0))
  {
    hide ReadLine;
    RunningLineReading("");
    TallyOfPlainPart("");
  }

  lemma TallyOfSetOff(line: string)
    ensures TallyParts(SetOff(line)) == TallyParts([line])
  {
    hide TallyParts;
    assert SetOff(line) == [""] + ([line] + [""]);
    TallyOfParts([""], [line] + [""]);
    TallyOfParts([line], [""]);
    TallyOfBlank();
  }

  lemma TallyOfUnder(heading: string, lines: seq<string>)
    ensures TallyParts(Under(heading, lines)) == Add(TallyParts([heading]), TallyParts(lines))
  {
    hide TallyParts;
    AddNothing(TallyParts(lines));
    assert Under(heading, lines) == [heading] + ([""] + lines);
    TallyOfParts([heading], [""] + lines);
    TallyOfParts([""], lines);
    TallyOfBlank();
  }

  /** A binary with a failing test spoils the output, whatever its tests are called or print. */
  lemma FailingSuiteSpoils(name: string, cases: seq<Case>, seconds: string)
    requires Plain(seconds) && Failing(cases) != []
    ensures TallyParts(SuiteParts(name, cases, seconds)).Refused?
  {
    hide TallyParts, ResultLine, Failing, CaseLines, FailureParts, Under, SetOff;
    var failing := Failing(cases);
    var front := Under(Heading(name), CaseLines(cases)) + FailureParts(failing);
    var line := ResultLine(|cases| - |failing|, |failing|, seconds);
    TallyOfParts(front, SetOff(line));
    TallyOfSetOff(line);
    TallyOfResultLine(|cases| - |failing|, |failing|, seconds);
  }

  /** A passing binary tallies to its tests, and to whatever its heading and their own lines read as. */
  lemma PassingSuiteTally(name: string, cases: seq<Case>, seconds: string)
    requires Plain(seconds) && Failing(cases) == []
    ensures TallyParts(SuiteParts(name, cases, seconds)) ==
            Add(Add(TallyParts([Heading(name)]), TallyParts(CaseLines(cases))), Ok(Tally(|cases|, 1)))
  {
    hide TallyParts, ResultLine, Failing, CaseLines, Under, SetOff, Heading, Add, FailureParts, Plain, SuiteParts;
    var front, line := Under(Heading(name), CaseLines(cases)), ResultLine(|cases|, 0, seconds);
    PassingParts(name, cases, seconds);
    TallyOfParts(front, SetOff(line));
    TallyOfUnder(Heading(name), CaseLines(cases));
    TallyOfSetOff(line);
    TallyOfResultLine(|cases|, 0, seconds);
  }

  lemma PassingParts(name: string, cases: seq<Case>, seconds: string)
    requires Failing(cases) == []
    ensures SuiteParts(name, cases, seconds) ==
            Under(Heading(name), CaseLines(cases)) + SetOff(ResultLine(|cases|, 0, seconds))
  {
    hide ResultLine, Failing, CaseLines, Under, SetOff, Heading, FailureParts;
    NothingUnder(Under(Heading(name), CaseLines(cases)));
  }

  lemma NothingUnder(front: seq<string>)
    ensures front + FailureParts([]) == front
  {
  }

  /** What is printed here, on a line or more of its own, adds nothing to the count. */
  predicate Silent(part: string) {
    Totals(TallyText(part + "\n"), 0)
  }

  predicate Quiet(c: Case) {
    Silent(CaseLine(c))
  }

  /** The lines of passing tests add nothing exactly when each of them is silent. */
  lemma {:induction false} QuietIff(cases: seq<Case>)
    ensures Totals(TallyParts(CaseLines(cases)), 0) <==> forall i :: 0 <= i < |cases| ==> Quiet(cases[i])
  {
    hide CaseLine, TallyText, Quiet;
    if cases != [] {
      var c, rest := cases[0], cases[1..];
      QuietIff(rest);
      QuietIs(c);
      var lines := CaseLines(cases);
      assert lines[1..] == CaseLines(rest);
      TallyOfPart(lines[0]);
      QuietCons(cases);
      assert TallyParts(lines) == Add(TallyText(CaseLine(c) + "\n"), TallyParts(CaseLines(rest)));
    }
  }

  lemma QuietIs(c: Case)
    ensures Quiet(c) <==> Totals(TallyText(CaseLine(c) + "\n"), 0)
  {
    hide TallyText, CaseLine;
  }

  lemma QuietCons(cases: seq<Case>)
    requires cases != []
    ensures (forall i :: 0 <= i < |cases| ==> Quiet(cases[i])) <==>
            Quiet(cases[0]) && forall i :: 0 <= i < |cases[1..]| ==> Quiet(cases[1..][i])
  {
    hide Quiet;
    if Quiet(cases[0]) && forall i :: 0 <= i < |cases[1..]| ==> Quiet(cases[1..][i]) {
      forall i | 0 <= i < |cases|
        ensures Quiet(cases[i])
      {
        assert i > 0 ==> cases[i] == cases[1..][i - 1];
      }
    }
  }

  // ---------------------------------------------------------------- the whole report

  /** The times are printed as numbers. */
  predicate PlainTimes(suites: seq<Suite>) {
    forall s :: s in suites ==> Plain(s.seconds)
  }

  predicate AllPass(suites: seq<Suite>) {
    forall s, c :: s in suites && c in s.cases ==> c.failure.None?
  }

  /** Neither the heading of the binary nor the line of any of its tests adds to the count. */
  predicate QuietSuite(suite: Suite) {
    suite.cases == [] || (Silent(Heading(suite.name.GetOr("?"))) && forall c :: c in suite.cases ==> Quiet(c))
  }

  predicate AllQuiet(suites: seq<Suite>) {
    forall s :: s in suites ==> QuietSuite(s)
  }

  lemma {:induction false} NoneFailing(cases: seq<Case>)
    ensures Failing(cases) == [] <==> forall i :: 0 <= i < |cases| ==> cases[i].failure.None?
  {
    hide Failing;
    NoCases();
    if cases != [] {
      var n := |cases| - 1;
      var front := cases[..n];
      NoneFailing(front);
      FailingStep(cases, n);
      assert cases[..n + 1] == cases;
      assert forall i :: 0 <= i < n ==> front[i] == cases[i];
    }
  }

  lemma SuiteTally(suite: Suite)
    requires Plain(suite.seconds) && forall c :: c in suite.cases ==> c.failure.None?
    ensures PassedIn(suite) == |suite.cases|
    ensures Totals(TallyParts(PartsOf(suite)), |suite.cases|) <==> QuietSuite(suite)
    ensures TallyParts(PartsOf(suite)).Ok? ==> TallyParts(PartsOf(suite)).value.total >= |suite.cases|
    ensures TallyParts(PartsOf(suite)).Ok? && suite.cases != [] ==> TallyParts(PartsOf(suite)).value.lines > 0
  {
    hide TallyParts, Quiet, SuiteParts, Plain, Sort, Failing, CaseLines, Silent, Heading;
    NoneFailing(suite.cases);
    if suite.cases == [] {
      NothingPrinted();
    } else {
      var cases, name := Sort(CaseBefore, suite.cases), suite.name.GetOr("?");
      SortPermutes(CaseBefore, suite.cases);
      SameElements(cases, suite.cases);
      assert forall i :: 0 <= i < |cases| ==> cases[i] in suite.cases;
      NoneFailing(cases);
      PassingSuiteTally(name, cases, suite.seconds);
      SilentPart(Heading(name));
      QuietIff(cases);
      QuietSorted(cases, suite.cases);
    }
  }

  lemma SilentPart(part: string)
    ensures Totals(TallyParts([part]), 0) <==> Silent(part)
  {
    hide TallyParts, TallyText;
    TallyOfPart(part);
  }

  lemma NothingPrinted()
    ensures TallyParts([]) == Ok(Tally(0, 0))
  {
  }

  lemma QuietSorted(cases: seq<Case>, all: seq<Case>)
    requires forall c :: c in cases <==> c in all
    ensures (forall i :: 0 <= i < |cases| ==> Quiet(cases[i])) <==> forall c :: c in all ==> Quiet(c)
  {
    hide Quiet;
    if forall i :: 0 <= i < |cases| ==> Quiet(cases[i]) {
      forall c | c in all
        ensures Quiet(c)
      {
        assert c in cases;
      }
    }
  }

  lemma {:induction false} ReportTally(suites: seq<Suite>)
    requires PlainTimes(suites) && AllPass(suites)
    ensures FailedTests(suites) == 0
    ensures Totals(TallyParts(AllParts(suites)), PassedTests(suites)) <==> AllQuiet(suites)
    ensures TallyParts(AllParts(suites)).Ok? ==> TallyParts(AllParts(suites)).value.total >= PassedTests(suites)
    ensures TallyParts(AllParts(suites)).Ok? && PassedTests(suites) > 0 ==> TallyParts(AllParts(suites)).value.lines > 0
  {
    hide TallyParts, PartsOf, QuietSuite, Plain, PassedIn, FailedIn;
    if suites == [] {
      NothingPrinted();
    } else {
      var n := |suites| - 1;
      var front, last := suites[..n], suites[n];
      assert suites == front + [last];
      ReportTally(front);
      SuiteTally(last);
      NothingFailedIn(last);
      TallyOfParts(AllParts(front), PartsOf(last));
      AllQuietStep(suites);
    }
  }

  lemma NothingFailedIn(suite: Suite)
    requires forall c :: c in suite.cases ==> c.failure.None?
    ensures FailedIn(suite) == 0 && PassedIn(suite) == |suite.cases|
  {
    NoneFailing(suite.cases);
  }

  lemma AllQuietStep(suites: seq<Suite>)
    requires suites != []
    ensures AllQuiet(suites) <==> AllQuiet(suites[..|suites| - 1]) && QuietSuite(suites[|suites| - 1])
  {
    hide QuietSuite;
    var n := |suites| - 1;
    assert forall s :: s in suites <==> s in suites[..n] || s == suites[n];
  }

  /** What is printed for an all-passing report is counted as its tests, exactly when neither a heading
      nor a test's own line adds to the count. */
  lemma CountOfPassingReport(report: Report)
    requires Render(report).Ok? && Render(report).value.failed == 0 && PlainTimes(report)
    ensures Count(Render(report).value.text) == Ok(Render(report).value.passed) <==> AllQuiet(report)
  {
    hide Sort, AllParts, TallyParts, PassedTests, FailedTests, QuietSuite, Plain, TallyText;
    var suites := Sort(SuiteBefore, report);
    SortPermutes(SuiteBefore, report);
    SameElements(suites, report);
    NothingFailed(suites);
    ReportTally(suites);
    SomethingPrinted(suites);
    TallyOfJoin(AllParts(suites));
    assert AllQuiet(suites) <==> AllQuiet(report);
  }

  lemma {:induction false} PassedIsSum(suites: seq<Suite>)
    ensures PassedTests(suites) == SumOver(PassedIn, suites)
  {
    hide PassedIn;
    if suites != [] {
      PassedIsSum(suites[..|suites| - 1]);
    }
  }

  lemma {:induction false} JoinedEnds(parts: seq<string>)
    ensures JoinLines(parts) != [] && JoinLines(parts)[|JoinLines(parts)| - 1] == '\n'
  {
    if |parts| > 1 {
      JoinedEnds(parts[1..]);
    }
  }

  lemma SilentHeading(name: string)
    requires Plain(name)
    ensures Silent(Heading(name))
  {
    hide ReadLine, TallyParts, TallyText;
    RunningLineReading(name);
    PlainHasNoBreaks(Heading(name));
    TallyOfPlainPart(Heading(name));
    TallyOfPart(Heading(name));
  }

  lemma TallyOfTestLine(name: string)
    requires Plain(name)
    ensures TallyText(TestLine(name, "ok") + "\n") == TallyOf(ReadLine(TestLine(name, "ok")))
  {
    hide ReadLine, TallyParts, TallyText, TestLine;
    PlainVerdicts();
    TestLineReading(name, "ok");
    PlainHasNoBreaks(TestLine(name, "ok"));
    TallyOfPlainPart(TestLine(name, "ok"));
    TallyOfPart(TestLine(name, "ok"));
  }

  /** Test names on one line, as every test runner prints them. */
  predicate PlainNames(suites: seq<Suite>) {
    forall s :: s in suites ==> Plain(s.name.GetOr("?")) && forall c :: c in s.cases ==> Plain(c.name.GetOr("?"))
  }

  /** In particular it is when no test's name starts with `result`. */
  lemma CountOfOrdinaryReport(report: Report)
    requires Render(report).Ok? && Render(report).value.failed == 0 && PlainTimes(report) && PlainNames(report)
    requires forall s, c :: s in report && c in s.cases ==> !StartsWith(c.name.GetOr("?"), "result")
    ensures Count(Render(report).value.text) == Ok(Render(report).value.passed)
  {
    hide Render, Count, Plain, ReadLine, TallyText, Silent, Heading;
    PassingReport(report);
    forall s | s in report
      ensures QuietSuite(s)
    {
      SilentHeading(s.name.GetOr("?"));
      forall c | c in s.cases
        ensures Quiet(c)
      {
        OrdinaryIsQuiet(c);
      }
    }
    CountOfPassingReport(report);
  }

  lemma OrdinaryIsQuiet(c: Case)
    requires c.failure.None? && Plain(c.name.GetOr("?")) && !StartsWith(c.name.GetOr("?"), "result")
    ensures Quiet(c)
  {
    hide Plain, ReadLine, TallyText, TestLine;
    PlainVerdicts();
    TestLineReading(c.name.GetOr("?"), "ok");
    TallyOfTestLine(c.name.GetOr("?"));
  }

  lemma PassingReport(report: Report)
    requires Render(report).Ok? && Render(report).value.failed == 0
    ensures AllPass(report)
  {
    hide Sort, PassedTests, FailedTests, AllParts;
    SortPermutes(SuiteBefore, report);
    SameElements(Sort(SuiteBefore, report), report);
    NothingFailed(Sort(SuiteBefore, report));
  }

  // ---------------------------------------------------------------- the names of Rust tests

  /** A name without separators, as the path of a Rust test is. */
  predicate IsPath(name: string) {
    Plain(name) && forall i :: 0 <= i < |name| ==> !IsSeparator(name[i])
  }

  lemma DotsAndOk()
    ensures Fields("ok") == ["ok"] && !IsDigits("ok")
    ensures forall i :: 0 <= i < |"..."| ==> !IsSeparator("..."[i])
  {
    FieldEnd("ok", 2);
  }

  /** The line of a test whose path starts with `result` is taken for a result line, and cannot be read
      as one. */
  lemma ResultPathIsBad(name: string)
    requires IsPath(name) && StartsWith(name, "result")
    ensures ReadLine(TestLine(name, "ok")) == Bad
  {
    hide Plain, Fields, StripAnsi, IsSeparator, IsDigits;
    var line := TestLine(name, "ok");
    PlainVerdicts();
    TestLineReading(name, "ok");
    PlainHasNoCodes(line);
    assert name[0] == name[..6][0];
    assert line == Spaced("test", Spaced(name, Spaced("...", "ok")));
    WordsHaveNoSeparators();
    DotsAndOk();
    DotsStart();
    FirstField("...", "ok");
    FirstField(name, Spaced("...", "ok"));
    FirstField("test", Spaced(name, Spaced("...", "ok")));
    var fields := ["test"] + ([name] + (["..."] + ["ok"]));
    assert Fields(line) == fields;
    assert fields[3] == "ok";
    assert line[..11] == "test " + name[..6];
  }

  lemma DotsStart()
    ensures !IsSeparator(Spaced("...", "ok")[0]) && !IsSeparator("ok"[0])
  {
  }

  /** A test whose line cannot be counted spoils the output. */
  lemma LoudCaseSpoils(suites: seq<Suite>, s: Suite, c: Case)
    requires s in suites && c in s.cases && TallyText(CaseLine(c) + "\n").Refused?
    ensures TallyParts(AllParts(suites)).Refused?
  {
    hide TallyParts, TallyText, CaseLine, PartsOf;
    var n := |suites| - 1;
    assert suites == suites[..n] + [suites[n]];
    TallyOfParts(AllParts(suites[..n]), PartsOf(suites[n]));
    if s == suites[n] {
      LoudCaseSpoilsSuite(s, c);
    } else {
      LoudCaseSpoils(suites[..n], s, c);
    }
  }

  lemma LoudCaseSpoilsSuite(s: Suite, c: Case)
    requires c in s.cases && TallyText(CaseLine(c) + "\n").Refused?
    ensures TallyParts(PartsOf(s)).Refused?
  {
    hide TallyParts, TallyText, CaseLine, Sort, Failing, Heading, FailureParts, ResultLine, SetOff;
    var cases, name := Sort(CaseBefore, s.cases), s.name.GetOr("?");
    SortPermutes(CaseBefore, s.cases);
    SameElements(cases, s.cases);
    var i :| 0 <= i < |cases| && cases[i] == c;
    var lines := CaseLines(cases);
    LoudLineSpoils(lines, i);
    assert Under(Heading(name), lines) == [Heading(name), ""] + lines;
    TallyOfParts([Heading(name), ""], lines);
    var failing := Failing(cases);
    TallyOfParts(Under(Heading(name), lines), FailureParts(failing));
    var result := ResultLine(|cases| - |failing|, |failing|, s.seconds);
    TallyOfParts(Under(Heading(name), lines) + FailureParts(failing), SetOff(result));
  }

  lemma LoudLineSpoils(lines: seq<string>, i: nat)
    requires i < |lines| && TallyText(lines[i] + "\n").Refused?
    ensures TallyParts(lines).Refused?
  {
    hide TallyParts, TallyText;
    assert lines == lines[..i] + ([lines[i]] + lines[i + 1..]);
    TallyOfParts(lines[..i], [lines[i]] + lines[i + 1..]);
    TallyOfParts([lines[i]], lines[i + 1..]);
    TallyOfPart(lines[i]);
  }

  /** For tests named by their paths: an all-passing run is counted as its tests exactly when no path
      starts with `result`, and refused whole otherwise. */
  lemma CountByNames(report: Report)
    requires Render(report).Ok? && Render(report).value.failed == 0 && PlainTimes(report) && PlainNames(report)
    requires forall s, c :: s in report && c in s.cases ==> IsPath(c.name.GetOr("?"))
    ensures Count(Render(report).value.text) ==
            if exists s, c :: s in report && c in s.cases && StartsWith(c.name.GetOr("?"), "result")
            then Refused else Ok(Render(report).value.passed)
  {
    if s, c :| s in report && c in s.cases && StartsWith(c.name.GetOr("?"), "result") {
      hide Sort, AllParts, TallyParts, TallyText, Plain, PassedTests, FailedTests, ReadLine, TestLine, StartsWith;
      PassingReport(report);
      var suites := Sort(SuiteBefore, report);
      SortPermutes(SuiteBefore, report);
      SameElements(suites, report);
      var name := c.name.GetOr("?");
      ResultPathIsBad(name);
      TallyOfTestLine(name);
      LoudCaseSpoils(suites, s, c);
      SomethingPrinted(suites);
      TallyOfJoin(AllParts(suites));
    } else {
      hide Render, Count, Plain;
      CountOfOrdinaryReport(report);
    }
  }

  lemma PlainVerdicts()
    ensures Plain("ok") && Plain("FAILED")
  {
  }

  /** A report with a failing test is never counted, whatever its tests are called or print. */
  lemma CountRefusesFailingReport(report: Report)
    requires Render(report).Ok? && Render(report).value.failed > 0 && forall s :: s in report ==> Plain(s.seconds)
    ensures Count(Render(report).value.text).Refused?
  {
    hide Sort, AllParts, TallyParts, PassedTests, FailedTests, Plain, TallyText;
    var suites := Sort(SuiteBefore, report);
    SortPermutes(SuiteBefore, report);
    SameElements(suites, report);
    SomethingPrinted(suites);
    FailingReportSpoils(suites);
    TallyOfJoin(AllParts(suites));
  }

  lemma {:induction false} FailingReportSpoils(suites: seq<Suite>)
    requires FailedTests(suites) > 0 && forall s :: s in suites ==> Plain(s.seconds)
    ensures TallyParts(AllParts(suites)).Refused?
  {
    hide TallyParts, PartsOf, Failing, Plain, Sort;
    var n := |suites| - 1;
    var front, last := suites[..n], suites[n];
    TallyOfParts(AllParts(front), PartsOf(last));
    if FailedTests(front) > 0 {
      FailingReportSpoils(front);
    } else {
      FailingSuite(last);
    }
  }

  lemma FailingSuite(suite: Suite)
    requires FailedIn(suite) > 0 && Plain(suite.seconds)
    ensures TallyParts(PartsOf(suite)).Refused?
  {
    hide TallyParts, Plain, Sort, SuiteParts;
    FailingOfSorted(suite.cases);
    FailingSuiteSpoils(suite.name.GetOr("?"), Sort(CaseBefore, suite.cases), suite.seconds);
  }

  lemma {:induction false} NothingFailed(suites: seq<Suite>)
    requires FailedTests(suites) == 0
    ensures AllPass(suites)
  {
    hide Failing;
    if suites != [] {
      var n := |suites| - 1;
      NothingFailed(suites[..n]);
      NoneFailing(suites[n].cases);
      assert forall s :: s in suites <==> s in suites[..n] || s == suites[n];
    }
  }

  lemma {:induction false} SomethingPrinted(suites: seq<Suite>)
    requires PassedTests(suites) + FailedTests(suites) > 0
    ensures AllParts(suites) != []
  {
    hide Sort, CaseLines;
    if AllParts(suites[..|suites| - 1]) == [] && suites[..|suites| - 1] != [] {
      if PassedTests(suites[..|suites| - 1]) + FailedTests(suites[..|suites| - 1]) > 0 {
        SomethingPrinted(suites[..|suites| - 1]);
      }
    }
  }

  /** A test named `result: ok. N` has a line that reads as N passed tests. */
  lemma MisleadingName(n: nat)
    ensures ReadLine(TestLine("result: ok. " + ShowNat(n), "ok")) == Reading.Passed(n)
    ensures Plain("result: ok. " + ShowNat(n))
  {
    hide ShowNat, Plain, Fields, ReadNat, StripAnsi;
    var digits := ShowNat(n);
    var name, dots := "result: ok. " + digits, "... ok";
    NumberIsPlain(n);
    MisleadingLiterals();
    PlainConcat("result: ok. ", digits);
    TestLineReading(name, "ok");
    var line := TestLine(name, "ok");
    PlainHasNoCodes(line);
    WordsHaveNoSeparators();
    assert line == Spaced("test", Spaced("result:", Spaced("ok.", Spaced(digits, dots))));
    FirstField(digits, dots);
    FirstField("ok.", Spaced(digits, dots));
    FirstField("result:", Spaced("ok.", Spaced(digits, dots)));
    FirstField("test", Spaced("result:", Spaced("ok.", Spaced(digits, dots))));
    var fields := ["test"] + (["result:"] + (["ok."] + ([digits] + Fields(dots))));
    assert Fields(line) == fields;
    assert fields[2] == "ok." && fields[3] == digits;
    ReadOfShow(n);
    assert line[..11] == "test result";
  }

  lemma MisleadingLiterals()
    ensures Plain("result: ok. ") && Plain("ok") && Plain("b") && Plain("0.00")
  {
  }

  lemma OneTestReport(suite: Suite, c: Case)
    requires suite.cases == [c] && c.failure.None?
    ensures Render([suite]).Ok? && Render([suite]).value.failed == 0 && Render([suite]).value.passed == 1
  {
    hide JoinLines, AllParts;
    assert [suite][..0] == [] && [c][..0] == [];
    assert Sort(SuiteBefore, [suite]) == [suite];
    assert Failing([c]) == [];
    assert PassedTests([suite]) == PassedTests([]) + PassedIn(suite);
    assert FailedTests([suite]) == FailedTests([]) + FailedIn(suite);
  }

  /** The refusal is real: a passing run of one test at the root of an integration test, called
      `result_is_kept`, cannot be counted. */
  lemma CountRefusesResultTest()
    ensures var report := [Suite(Some("b"), [Case(Some("result_is_kept"), None, "", "")], "0.00")];
            && Render(report).Ok? && Render(report).value.failed == 0 && Render(report).value.passed == 1
            && Count(Render(report).value.text).Refused?
  {
    hide Render, Count, Plain, IsPath, StartsWith;
    var c := Case(Some("result_is_kept"), None, "", "");
    var suite := Suite(Some("b"), [c], "0.00");
    ResultIsKept();
    MisleadingLiterals();
    OneTestReport(suite, c);
    assert suite in [suite] && c in suite.cases;
    PathIsPlain("result_is_kept");
    CountByNames([suite]);
  }

  lemma ResultIsKept()
    ensures IsPath("result_is_kept") && StartsWith("result_is_kept", "result")
  {
  }

  lemma PathIsPlain(name: string)
    requires IsPath(name)
    ensures Plain(name)
  {
  }

  /** A name with spaces, as a custom test harness can report, can even be counted: a run of one passing
      test called `result: ok. N` is counted as N + 1. */
  lemma CountMisledByName(n: nat)
    ensures var report := [Suite(Some("b"), [Case(Some("result: ok. " + ShowNat(n)), None, "", "")], "0.00")];
            && Render(report).Ok? && Render(report).value.failed == 0 && Render(report).value.passed == 1
            && Count(Render(report).value.text) == Ok(n + 1)
  {
    hide Render, Plain, ReadLine, ShowNat, TallyText, TestLine, TallyParts, PartsOf, JoinLines;
    var name := "result: ok. " + ShowNat(n);
    var c := Case(Some(name), None, "", "");
    var suite := Suite(Some("b"), [c], "0.00");
    MisleadingName(n);
    MisleadingLiterals();
    OneTestReport(suite, c);
    OneTestText(suite, c);
    TallyOfTestLine(name);
    SilentTally("b");
    MisledSuite(suite, c);
    SomeParts(suite, c);
    TallyOfJoin(PartsOf(suite));
  }

  lemma OneTestText(suite: Suite, c: Case)
    requires suite.cases == [c]
    ensures Render([suite]).Ok? ==> Render([suite]).value.text == JoinLines(PartsOf(suite))
  {
    hide JoinLines, PartsOf, PassedTests, FailedTests;
    assert [suite][..0] == [];
    assert Sort(SuiteBefore, [suite]) == [suite];
    assert AllParts([suite]) == [] + PartsOf(suite) == PartsOf(suite);
  }

  lemma SomeParts(suite: Suite, c: Case)
    requires suite.cases == [c]
    ensures PartsOf(suite) != []
  {
    hide Sort, CaseLines, FailureParts, SetOff, ResultLine, Failing;
  }

  lemma SilentTally(name: string)
    requires Plain(name)
    ensures TallyParts([Heading(name)]) == Ok(Tally(0, 0))
  {
    hide ReadLine, TallyParts;
    RunningLineReading(name);
    PlainHasNoBreaks(Heading(name));
    TallyOfPlainPart(Heading(name));
  }

  lemma SortOfOne(c: Case)
    ensures Sort(CaseBefore, [c]) == [c]
  {
    assert [c][..0] == [];
  }

  /** One passing test under a heading that reads as nothing: its own line and its result are tallied. */
  lemma MisledSuite(suite: Suite, c: Case)
    requires suite.cases == [c] && c.failure.None? && Plain(suite.seconds)
    requires TallyParts([Heading(suite.name.GetOr("?"))]) == Ok(Tally(0, 0))
    ensures TallyParts(PartsOf(suite)) == Add(TallyText(CaseLine(c) + "\n"), Ok(Tally(1, 1)))
  {
    hide Plain, TallyParts, TallyText, SuiteParts, CaseLine, Heading, Failing, Sort;
    NoneFailing([c]);
    SortOfOne(c);
    assert CaseLines([c]) == [CaseLine(c)];
    PassingSuiteTally(suite.name.GetOr("?"), [c], suite.seconds);
    TallyOfPart(CaseLine(c));
  }
}

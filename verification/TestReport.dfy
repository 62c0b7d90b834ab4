/** `render_junit`: nextest's report printed as libtest text. */
module TestReport {
  import opened Options
  import opened Results
  import opened Text
  import opened Sorting
  import opened Sums
  import opened TestCount

  /** The `failure` or `error` element of a test case. */
  datatype Failure = Failure(timeout: bool, text: string, message: string)

  datatype Case = Case(name: Option<string>, failure: Option<Failure>, systemOut: string, systemErr: string)

  /** One test binary; `seconds` is its total time as printed. */
  datatype Suite = Suite(name: Option<string>, cases: seq<Case>, seconds: string)

  type Report = seq<Suite>

  datatype Rendered = Rendered(text: string, passed: nat, failed: nat)

  const TIMEOUT_NOTE :=
    "cargo-nextest stopped this test: " + "it ran past the slow-timeout of the suite profile " +
    "in .config/nextest.toml."

  // ---------------------------------------------------------------- a failing test's own output

  /** The lines libtest prints around the output of test `name`. */
  predicate IsHarnessLine(line: string, name: string) {
    || line == "running 1 test"
    || line == "failures:"
    || line == "    " + name
    || line == "---- " + name + " stdout ----"
    || line == "test " + name + " ... ok"
    || line == "test " + name + " ... FAILED"
    || line == "test " + name + " ... ignored"
    || StartsWith(line, "test result: ")
  }

  function WithoutHarness(lines: seq<string>, name: string): seq<string> {
    if lines == [] then []
    else
      var last := lines[|lines| - 1];
      WithoutHarness(lines[..|lines| - 1], name) + if IsHarnessLine(last, name) then [] else [last]
  }

  function TrimFront(lines: seq<string>): seq<string> {
    if lines != [] && Strip(lines[0]) == [] then TrimFront(lines[1..]) else lines
  }

  function TrimBack(lines: seq<string>): seq<string> {
    if lines != [] && Strip(lines[|lines| - 1]) == [] then TrimBack(lines[..|lines| - 1]) else lines
  }

  /** `_own_output`. */
  function OwnOutput(text: string, name: string): seq<string> {
    TrimBack(TrimFront(WithoutHarness(SplitLines(text), name)))
  }

  function NotIn(lines: seq<string>, body: seq<string>): seq<string> {
    if lines == [] then []
    else NotIn(lines[..|lines| - 1], body) + if lines[|lines| - 1] in body then [] else [lines[|lines| - 1]]
  }

  /** What is printed under a failing test's heading. */
  function FailureBody(c: Case): seq<string>
    requires c.failure.Some?
  {
    var name, failure := c.name.GetOr("?"), c.failure.value;
    var own := OwnOutput(failure.text, name);
    var body := (if failure.timeout then [TIMEOUT_NOTE] else [])
                + (if own != [] then own else OwnOutput(failure.message, name))
                + OwnOutput(c.systemOut, name);
    body + NotIn(OwnOutput(c.systemErr, name), body)
  }

  function FailureBlock(c: Case): string
    requires c.failure.Some?
  {
    Join("\n", ["---- " + c.name.GetOr("?") + " stdout ----"] + FailureBody(c))
  }

  // ---------------------------------------------------------------- one binary

  /** `w rest`, with the space between them. */
  function Spaced(w: string, rest: string): string {
    w + " " + rest
  }

  function TestLine(name: string, verdict: string): string {
    Spaced("test", name + " ... " + verdict)
  }

  /** What follows the word for the passed count on a result line. */
  function ResultTail(failed: nat, seconds: string): string {
    Concat(["passed; ", ShowNat(failed), " failed; ignored", " tests are not", " reported by",
            " cargo-nextest;", " finished in ", seconds, "s"])
  }

  function ResultLine(passed: nat, failed: nat, seconds: string): string {
    var verdict := if failed == 0 then "ok." else "FAILED.";
    Spaced("test", Spaced("result:", Spaced(verdict, Spaced(ShowNat(passed), ResultTail(failed, seconds)))))
  }

  function CaseLine(c: Case): string {
    TestLine(c.name.GetOr("?"), if c.failure.None? then "ok" else "FAILED")
  }

  function CaseLines(cases: seq<Case>): (lines: seq<string>)
    ensures |lines| == |cases| && forall i :: 0 <= i < |cases| ==> lines[i] == CaseLine(cases[i])
  {
    seq(|cases|, i requires 0 <= i < |cases| => CaseLine(cases[i]))
  }

  function Failing(cases: seq<Case>): (failing: seq<Case>)
    ensures forall c :: c in failing ==> c in cases && c.failure.Some?
    ensures |failing| <= |cases|
  {
    if cases == [] then []
    else Failing(cases[..|cases| - 1]) + if cases[|cases| - 1].failure.Some? then [cases[|cases| - 1]] else []
  }

  function Blocks(failing: seq<Case>): seq<string>
    requires forall c :: c in failing ==> c.failure.Some?
  {
    if failing == [] then [] else Blocks(failing[..|failing| - 1]) + [FailureBlock(failing[|failing| - 1]), ""]
  }

  function Listed(failing: seq<Case>): seq<string> {
    seq(|failing|, i requires 0 <= i < |failing| => "    " + failing[i].name.GetOr("?"))
  }

  function FailureParts(failing: seq<Case>): seq<string>
    requires forall c :: c in failing ==> c.failure.Some?
  {
    if failing == [] then [] else ["", "failures:", ""] + Blocks(failing) + ["failures:"] + Listed(failing)
  }

  function Heading(name: string): string {
    "     Running " + name
  }

  /** Lines under a heading and a blank line. */
  function Under(heading: string, lines: seq<string>): seq<string> {
    [heading, ""] + lines
  }

  /** A line between blank lines. */
  function SetOff(line: string): seq<string> {
    ["", line, ""]
  }

  /** Everything printed for one binary whose cases are already in name order. */
  function SuiteParts(name: string, cases: seq<Case>, seconds: string): seq<string> {
    var failing := Failing(cases);
    Under(Heading(name), CaseLines(cases)) + FailureParts(failing) +
      SetOff(ResultLine(|cases| - |failing|, |failing|, seconds))
  }

  // ---------------------------------------------------------------- the whole report

  predicate CaseBefore(a: Case, b: Case) {
    Before(a.name.GetOr(""), b.name.GetOr(""))
  }

  predicate SuiteBefore(a: Suite, b: Suite) {
    Before(a.name.GetOr(""), b.name.GetOr(""))
  }

  /** A suite prints nothing when it holds no test. */
  function PartsOf(suite: Suite): seq<string> {
    if suite.cases == [] then [] else SuiteParts(suite.name.GetOr("?"), Sort(CaseBefore, suite.cases), suite.seconds)
  }

  function AllParts(suites: seq<Suite>): seq<string> {
    if suites == [] then [] else AllParts(suites[..|suites| - 1]) + PartsOf(suites[|suites| - 1])
  }

  function FailedIn(suite: Suite): nat {
    |Failing(suite.cases)|
  }

  function PassedIn(suite: Suite): nat {
    |suite.cases| - |Failing(suite.cases)|
  }

  function FailedTests(suites: seq<Suite>): nat {
    if suites == [] then 0 else FailedTests(suites[..|suites| - 1]) + FailedIn(suites[|suites| - 1])
  }

  function PassedTests(suites: seq<Suite>): nat {
    if suites == [] then 0 else PassedTests(suites[..|suites| - 1]) + PassedIn(suites[|suites| - 1])
  }

  /** `render_junit`: the text, how many tests passed and how many failed; a report without a test is
      refused. */
  function Render(report: Report): (r: Result<Rendered>) {
    var suites := Sort(SuiteBefore, report);
    if PassedTests(suites) + FailedTests(suites) == 0 then Refused
    else Ok(Rendered(JoinLines(AllParts(suites)), PassedTests(suites), FailedTests(suites)))
  }

  // ---------------------------------------------------------------- the loops

  function FailureCount(c: Case): nat {
    if c.failure.Some? then 1 else 0
  }

  lemma {:induction false} FailingCount(cases: seq<Case>)
    ensures |Failing(cases)| == SumOver(FailureCount, cases)
  {
    if cases != [] {
      FailingCount(cases[..|cases| - 1]);
    }
  }

  /** Sorting does not change how many cases fail. */
  lemma FailingOfSorted(cases: seq<Case>)
    ensures |Failing(Sort(CaseBefore, cases))| == |Failing(cases)| && |Sort(CaseBefore, cases)| == |cases|
  {
    hide Failing, Sort;
    SortPermutes(CaseBefore, cases);
    SumOfPermutation(FailureCount, Sort(CaseBefore, cases), cases);
    FailingCount(cases);
    FailingCount(Sort(CaseBefore, cases));
  }

  lemma FailingStep(cases: seq<Case>, i: nat)
    requires i < |cases|
    ensures Failing(cases[..i + 1]) == Failing(cases[..i]) + if cases[i].failure.Some? then [cases[i]] else []
    ensures CaseLines(cases[..i + 1]) == CaseLines(cases[..i]) + [CaseLine(cases[i])]
  {
    hide CaseLine;
    assert cases[..i + 1][..i] == cases[..i];
  }

  lemma BlocksStep(failing: seq<Case>, c: Case)
    requires c.failure.Some? && forall f :: f in failing ==> f.failure.Some?
    ensures forall f :: f in failing + [c] ==> f.failure.Some?
    ensures Blocks(failing + [c]) == Blocks(failing) + [FailureBlock(c), ""]
    ensures Listed(failing + [c]) == Listed(failing) + ["    " + c.name.GetOr("?")]
  {
    hide FailureBlock;
    assert (failing + [c])[..|failing|] == failing;
  }

  /** The loop over the cases of one binary: its lines, and how many passed and failed. */
  method RenderSuite(name: string, cases: seq<Case>, seconds: string) returns (lines: seq<string>, ok: nat, bad: nat)
    ensures lines == SuiteParts(name, cases, seconds)
    ensures bad == |Failing(cases)| && ok == |cases| - bad
  {
    hide Failing, Blocks, FailureBlock, CaseLine, CaseLines, ResultLine, Heading;
    lines := [Heading(name), ""];
    var blocks: seq<string>, names: seq<string> := [], [];
    ok, bad := 0, 0;
    ghost var failing: seq<Case> := [];
    NoCases();
    ghost var start := lines;
    assert cases[..0] == [];
    for i := 0 to |cases|
      invariant failing == Failing(cases[..i]) && bad == |failing| && ok + bad == i
      invariant lines == start + CaseLines(cases[..i])
      invariant blocks == Blocks(failing) && names == Listed(failing)
    {
      FailingStep(cases, i);
      if cases[i].failure.None? {
        ok := ok + 1;
      } else {
        BlocksStep(failing, cases[i]);
        bad := bad + 1;
        names := names + ["    " + cases[i].name.GetOr("?")];
        blocks := blocks + [FailureBlock(cases[i]), ""];
        failing := failing + [cases[i]];
      }
      lines := lines + [CaseLine(cases[i])];
    }
    assert cases[..|cases|] == cases;
    if failing != [] {
      SomeBlocks(failing);
    }
    if blocks != [] {
      lines := lines + (["", "failures:", ""] + blocks + ["failures:"] + names);
    }
    lines := lines + ["", ResultLine(ok, bad, seconds), ""];
  }

  lemma NoCases()
    ensures Failing([]) == [] && CaseLines([]) == [] && Blocks([]) == [] && Listed([]) == []
  {
  }

  lemma SomeBlocks(failing: seq<Case>)
    requires failing != [] && forall c :: c in failing ==> c.failure.Some?
    ensures Blocks(failing) != []
  {
  }

  /** The loop over the binaries. */
  method RenderLoop(report: Report) returns (r: Result<Rendered>)
    ensures r == Render(report)
  {
    hide Sort, SuiteParts, Failing, JoinLines;
    var suites := Sort(SuiteBefore, report);
    var out: seq<string>, passed: nat, failed: nat := [], 0, 0;
    assert suites[..0] == [];
    for i := 0 to |suites|
      invariant out == AllParts(suites[..i])
      invariant passed == PassedTests(suites[..i]) && failed == FailedTests(suites[..i])
    {
      assert suites[..i + 1][..i] == suites[..i];
      var suite := suites[i];
      FailingOfSorted(suite.cases);
      var cases := Sort(CaseBefore, suite.cases);
      if cases == [] {
        assert out + [] == out;
        continue;
      }
      var lines, ok, bad := RenderSuite(suite.name.GetOr("?"), cases, suite.seconds);
      out := out + lines;
      passed := passed + ok;
      failed := failed + bad;
    }
    assert suites[..|suites|] == suites;
    if passed + failed == 0 {
      return Refused;
    }
    return Ok(Rendered(JoinLines(out), passed, failed));
  }
}

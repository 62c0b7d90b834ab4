/** What the shards of a run print, and that sharding does not show in what is counted. */
module MergedTheorems {
  import opened Results
  import opened Text
  import opened Sorting
  import opened Sums
  import opened TestCount
  import opened TestReport
  import opened CountTheorems
  import opened Tallies
  import opened MergedRuns
  import Shards
  import ShardTheorems

  /** The test binaries of these targets, target after target. */
  function SuitesFor(suites: string -> Report, targets: seq<string>): Report {
    if targets == [] then [] else SuitesFor(suites, targets[..|targets| - 1]) + suites(targets[|targets| - 1])
  }

  /** The text printed for a report; for one that holds no test, nothing. */
  function Reported(report: Report): string {
    var rendered := Render(report);
    if rendered.Ok? then rendered.value.text else []
  }

  /** The text a run of these targets prints: the report of their binaries, then the doctests if the
      unit tests are among them. */
  function Printed(suites: string -> Report, docs: string, targets: seq<string>): string {
    Reported(SuitesFor(suites, targets)) + if Shards.UNIT_TESTS in targets then docs else []
  }

  /** What a shard prints first, its own announcement and the build's output: whole lines, none counted. */
  predicate BuildOutput(build: string) {
    EndsLine(build) && Totals(TallyText(build), 0)
  }

  /** Every shard printed its own targets, whatever became of their tests. */
  ghost predicate AllPrinted(runs: seq<ShardRun>, builds: seq<string>, suites: string -> Report, docs: string) {
    && |builds| == |runs| && EndsLine(docs)
    && forall i :: 0 <= i < |runs| ==>
         BuildOutput(builds[i]) && runs[i].output == builds[i] + Printed(suites, docs, runs[i].manifest.targets)
  }

  // ---------------------------------------------------------------- what a report tallies to

  function SuiteReading(suite: Suite): Result<Tally> {
    TallyParts(PartsOf(suite))
  }

  lemma {:induction false} PartsRead(suites: seq<Suite>)
    ensures TallyParts(AllParts(suites)) == Fold(SuiteReading, suites)
  {
    hide TallyParts, PartsOf, Add;
    if suites == [] {
      NothingPrinted();
    } else {
      var n := |suites| - 1;
      PartsRead(suites[..n]);
      TallyOfParts(AllParts(suites[..n]), PartsOf(suites[n]));
    }
  }

  lemma {:induction false} NoTestsNoParts(suites: seq<Suite>)
    requires PassedTests(suites) + FailedTests(suites) == 0
    ensures AllParts(suites) == []
  {
    hide Sort, SuiteParts, Failing;
    if suites != [] {
      NoTestsNoParts(suites[..|suites| - 1]);
    }
  }

  /** What is printed for a report tallies to what its binaries do, in whatever order they come. */
  lemma ReportReads(report: Report)
    ensures EndsLine(Reported(report)) && TallyText(Reported(report)) == Fold(SuiteReading, report)
  {
    hide Sort, AllParts, PassedTests, FailedTests, TallyParts, TallyText, Fold, JoinLines;
    var suites := Sort(SuiteBefore, report);
    SortPermutes(SuiteBefore, report);
    FoldOfPermutation(SuiteReading, suites, report);
    PartsRead(suites);
    if Render(report).Ok? {
      SomethingPrinted(suites);
      TallyOfJoin(AllParts(suites));
      JoinedEnds(AllParts(suites));
    } else {
      NoTestsNoParts(suites);
      NothingPrinted();
      NothingToTally();
    }
  }

  /** What a target adds to the tally of a run: its binaries, and the doctests with the unit tests. */
  function TargetReading(suites: string -> Report, docs: string): string -> Result<Tally> {
    (t: string) => Add(Fold(SuiteReading, suites(t)), DocsReading(docs, t == Shards.UNIT_TESTS))
  }

  function DocsReading(docs: string, run: bool): Result<Tally> {
    if run then TallyText(docs) else Ok(Tally(0, 0))
  }

  lemma {:induction false} TargetsRead(suites: string -> Report, docs: string, targets: seq<string>)
    requires multiset(targets)[Shards.UNIT_TESTS] <= 1
    ensures Fold(TargetReading(suites, docs), targets) ==
            Add(Fold(SuiteReading, SuitesFor(suites, targets)), DocsReading(docs, Shards.UNIT_TESTS in targets))
  {
    hide Add, TallyText, SuiteReading;
    if targets == [] {
      AddNothing(Ok(Tally(0, 0)));
    } else {
      var n := |targets| - 1;
      var front, last := targets[..n], targets[n];
      assert targets == front + [last];
      assert multiset(targets) == multiset(front) + multiset{last};
      TargetsRead(suites, docs, front);
      FoldOfConcat(SuiteReading, SuitesFor(suites, front), suites(last));
      AddSwap(Fold(SuiteReading, SuitesFor(suites, front)), DocsReading(docs, Shards.UNIT_TESTS in front),
              Fold(SuiteReading, suites(last)), DocsReading(docs, last == Shards.UNIT_TESTS));
      assert Shards.UNIT_TESTS in front <==> multiset(front)[Shards.UNIT_TESTS] > 0;
      AddNothing(DocsReading(docs, Shards.UNIT_TESTS in front));
      AddNothing(DocsReading(docs, last == Shards.UNIT_TESTS));
    }
  }

  /** What is printed for these targets tallies to what each of them adds. */
  lemma PrintedReads(suites: string -> Report, docs: string, targets: seq<string>)
    requires multiset(targets)[Shards.UNIT_TESTS] <= 1
    ensures TallyText(Printed(suites, docs, targets)) == Fold(TargetReading(suites, docs), targets)
  {
    hide TallyText, Fold, Reported, SuitesFor, Add;
    var report := SuitesFor(suites, targets);
    ReportReads(report);
    TargetsRead(suites, docs, targets);
    TallyOfTexts(Reported(report), docs);
    AddNothing(Fold(SuiteReading, report));
    assert Reported(report) + [] == Reported(report);
  }

  lemma PrintedEnds(suites: string -> Report, docs: string, targets: seq<string>)
    requires EndsLine(docs)
    ensures EndsLine(Printed(suites, docs, targets))
  {
    hide Reported, SuitesFor, Fold, TallyText;
    ReportReads(SuitesFor(suites, targets));
  }

  // ---------------------------------------------------------------- what the shards tally to

  function RunReading(run: ShardRun): Result<Tally> {
    TallyText(run.output)
  }

  lemma {:induction false} OutputsRead(runs: seq<ShardRun>)
    requires forall i :: 0 <= i < |runs| ==> EndsLine(runs[i].output)
    ensures EndsLine(Outputs(runs)) && TallyText(Outputs(runs)) == Fold(RunReading, runs)
  {
    hide TallyText, Add;
    if runs == [] {
      NothingToTally();
    } else {
      var n := |runs| - 1;
      OutputsRead(runs[..n]);
      TallyOfTexts(Outputs(runs[..n]), runs[n].output);
    }
  }

  /** The merged output tallies to what the shards' own outputs do. */
  lemma {:induction false} MergedReads(runs: seq<ShardRun>)
    requires Merge(runs).Ok? && forall i :: 0 <= i < |runs| ==> EndsLine(runs[i].output)
    ensures TallyText(Merge(runs).value) == Fold(RunReading, runs)
  {
    hide Sort, Shards.MergeProblems, TallyText, Fold, EndsLine, Outputs;
    var sorted := Sort(IndexBefore, runs);
    SortPermutes(IndexBefore, runs);
    SameElements(sorted, runs);
    forall i | 0 <= i < |sorted|
      ensures EndsLine(sorted[i].output)
    {
      assert sorted[i] in runs;
    }
    OutputsRead(sorted);
    FoldOfPermutation(RunReading, sorted, runs);
  }

  lemma RunReads(run: ShardRun, build: string, suites: string -> Report, docs: string)
    requires BuildOutput(build) && EndsLine(docs) && run.output == build + Printed(suites, docs, run.manifest.targets)
    requires multiset(run.manifest.targets)[Shards.UNIT_TESTS] <= 1
    ensures EndsLine(run.output)
    ensures RunReading(run) == Add(TallyText(build), Fold(TargetReading(suites, docs), run.manifest.targets))
  {
    hide Printed, TallyText, Fold, Add;
    var text := Printed(suites, docs, run.manifest.targets);
    PrintedEnds(suites, docs, run.manifest.targets);
    PrintedReads(suites, docs, run.manifest.targets);
    TallyOfTexts(build, text);
  }

  lemma FrontPrinted(runs: seq<ShardRun>, builds: seq<string>, suites: string -> Report, docs: string)
    requires AllPrinted(runs, builds, suites, docs) && runs != []
    ensures |builds| == |runs| && AllPrinted(runs[..|runs| - 1], builds[..|runs| - 1], suites, docs)
    ensures var n := |runs| - 1;
            && EndsLine(docs) && BuildOutput(builds[n])
            && runs[n].output == builds[n] + Printed(suites, docs, runs[n].manifest.targets)
    ensures AllTargets(runs) == AllTargets(runs[..|runs| - 1]) + runs[|runs| - 1].manifest.targets
    ensures Fold(RunReading, runs) == Add(Fold(RunReading, runs[..|runs| - 1]), RunReading(runs[|runs| - 1]))
    ensures Fold(TallyText, builds) == Add(Fold(TallyText, builds[..|runs| - 1]), TallyText(builds[|runs| - 1]))
  {
    hide Printed, TallyText, Add, BuildOutput, RunReading, EndsLine;
  }

  lemma OutputsEnd(runs: seq<ShardRun>, builds: seq<string>, suites: string -> Report, docs: string)
    requires AllPrinted(runs, builds, suites, docs)
    ensures forall i :: 0 <= i < |runs| ==> EndsLine(runs[i].output)
  {
    hide Printed, TallyText;
    forall i | 0 <= i < |runs|
      ensures EndsLine(runs[i].output)
    {
      PrintedEnds(suites, docs, runs[i].manifest.targets);
    }
  }

  lemma {:induction false} RunsRead(runs: seq<ShardRun>, builds: seq<string>, suites: string -> Report, docs: string)
    requires AllPrinted(runs, builds, suites, docs) && multiset(AllTargets(runs))[Shards.UNIT_TESTS] <= 1
    ensures Fold(RunReading, runs) == Add(Fold(TallyText, builds), Fold(TargetReading(suites, docs), AllTargets(runs)))
  {
    if runs == [] {
      AddNothing(Ok(Tally(0, 0)));
    } else {
      hide *;
      var n, reading := |runs| - 1, TargetReading(suites, docs);
      FrontPrinted(runs, builds, suites, docs);
      RunsRead(runs[..n], builds[..n], suites, docs);
      RunReads(runs[n], builds[n], suites, docs);
      FoldOfConcat(reading, AllTargets(runs[..n]), runs[n].manifest.targets);
      AddSwap(Fold(TallyText, builds[..n]), Fold(reading, AllTargets(runs[..n])),
              TallyText(builds[n]), Fold(reading, runs[n].manifest.targets));
    }
  }

  /** What counts for nothing in front of a text does not show. */
  lemma CountIgnores(text: string, other: string, nothing: Result<Tally>)
    requires Totals(nothing, 0) && TallyText(text) == Add(nothing, TallyText(other))
    ensures Count(text) == Count(other)
  {
    hide TallyLines, SplitLines;
    TotalNeedsLines(SplitLines(text));
    TotalNeedsLines(SplitLines(other));
  }

  /** Sharding does not show in the count, whatever the tests are called and however they end: the merged
      output of the shards is counted, or refused, as the output of one unsharded run of the targets. */
  lemma {:induction false} MergedCountsAsUnsharded(
    runs: seq<ShardRun>, builds: seq<string>, suites: string -> Report, docs: string)
    requires Merge(runs).Ok? && runs != [] && Shards.Distinct(runs[0].manifest.all)
    requires AllPrinted(runs, builds, suites, docs)
    ensures Count(Merge(runs).value) == Count(Printed(suites, docs, runs[0].manifest.all))
  {
    hide Merge, Printed, TallyText, Fold, Count, AllTargets, Add, EndsLine, RunReading, TargetReading;
    var all, reading := runs[0].manifest.all, TargetReading(suites, docs);
    SameTargets(runs);
    ShardTheorems.OnceIn(all, Shards.UNIT_TESTS);
    RunsRead(runs, builds, suites, docs);
    OutputsEnd(runs, builds, suites, docs);
    MergedReads(runs);
    FoldOfPermutation(reading, AllTargets(runs), all);
    PrintedReads(suites, docs, all);
    FoldOfNothing(TallyText, builds);
    CountIgnores(Merge(runs).value, Printed(suites, docs, all), Fold(TallyText, builds));
  }

  // ---------------------------------------------------------------- what refuses a merged run

  /** A test that refuses the count of its run: it fails, or its path starts with `result`. */
  predicate Spoils(s: Suite, c: Case) {
    || (c.failure.Some? && Plain(s.seconds))
    || (c.failure.None? && IsPath(c.name.GetOr("?")) && StartsWith(c.name.GetOr("?"), "result"))
  }

  lemma SpoiledSuite(s: Suite, c: Case)
    requires c in s.cases && Spoils(s, c)
    ensures SuiteReading(s).Refused?
  {
    hide TallyParts, PartsOf, Plain, Failing, TallyText, ReadLine, TestLine, StartsWith;
    if c.failure.Some? {
      NoneFailing(s.cases);
      var i :| 0 <= i < |s.cases| && s.cases[i] == c;
      FailingSuite(s);
    } else {
      ResultPathIsBad(c.name.GetOr("?"));
      TallyOfTestLine(c.name.GetOr("?"));
      LoudCaseSpoilsSuite(s, c);
    }
  }

  /** One such test in any shard refuses the count of the merged run. */
  lemma {:induction false} MergedCountRefused(
    runs: seq<ShardRun>, builds: seq<string>, suites: string -> Report, docs: string,
    i: nat, t: string, s: Suite, c: Case)
    requires Merge(runs).Ok? && runs != [] && Shards.Distinct(runs[0].manifest.all)
    requires AllPrinted(runs, builds, suites, docs)
    requires i < |runs| && t in runs[i].manifest.targets && s in suites(t) && c in s.cases && Spoils(s, c)
    ensures Count(Merge(runs).value).Refused?
  {
    hide Merge, Printed, TallyText, Fold, AllTargets, EndsLine, Spoils, SuiteReading;
    SameTargets(runs);
    ShardTheorems.OnceIn(runs[0].manifest.all, Shards.UNIT_TESTS);
    AtMostOnce(runs, Shards.UNIT_TESTS, i);
    OutputsEnd(runs, builds, suites, docs);
    MergedReads(runs);
    SpoiledSuite(s, c);
    FoldOfRefused(SuiteReading, suites(t), s);
    FoldOfRefused(TargetReading(suites, docs), runs[i].manifest.targets, t);
    RunReads(runs[i], builds[i], suites, docs);
    FoldOfRefused(RunReading, runs, runs[i]);
  }

  // ---------------------------------------------------------------- how much is counted

  /** The tests a target stands for. */
  function TestsOf(suites: string -> Report, docTests: nat): string -> nat {
    (t: string) => PassedTests(suites(t)) + if t == Shards.UNIT_TESTS then docTests else 0
  }

  /** Every test of the report passes, and nothing printed for it but its result lines is counted. */
  predicate Clean(report: Report) {
    AllPass(report) && PlainTimes(report) && AllQuiet(report)
  }

  lemma PassedOfConcat(a: Report, b: Report)
    ensures PassedTests(a + b) == PassedTests(a) + PassedTests(b)
  {
    hide PassedTests, SumOver;
    PassedIsSum(a);
    PassedIsSum(b);
    PassedIsSum(a + b);
    SumOfConcat(PassedIn, a, b);
  }

  lemma {:induction false} TestsAdd(suites: string -> Report, docTests: nat, targets: seq<string>)
    requires multiset(targets)[Shards.UNIT_TESTS] <= 1
    ensures SumOver(TestsOf(suites, docTests), targets) ==
            PassedTests(SuitesFor(suites, targets)) + if Shards.UNIT_TESTS in targets then docTests else 0
  {
    if targets != [] {
      hide PassedTests;
      var n := |targets| - 1;
      assert targets == targets[..n] + [targets[n]];
      assert multiset(targets) == multiset(targets[..n]) + multiset{targets[n]};
      TestsAdd(suites, docTests, targets[..n]);
      PassedOfConcat(SuitesFor(suites, targets[..n]), suites(targets[n]));
      assert Shards.UNIT_TESTS in targets[..n] <==> multiset(targets[..n])[Shards.UNIT_TESTS] > 0;
    }
  }

  /** What is printed for these targets counts exactly their tests. */
  lemma PrintedCounts(suites: string -> Report, docs: string, docTests: nat, targets: seq<string>)
    requires Totals(TallyText(docs), docTests) && Clean(SuitesFor(suites, targets))
    requires multiset(targets)[Shards.UNIT_TESTS] <= 1
    ensures Totals(TallyText(Printed(suites, docs, targets)), SumOver(TestsOf(suites, docTests), targets))
  {
    hide Printed, PassedTests, TallyText, SumOver, AllPass, PlainTimes, AllQuiet, SuitesFor, Fold, TallyParts, AllParts;
    var report := SuitesFor(suites, targets);
    ReportTally(report);
    PartsRead(report);
    TargetsRead(suites, docs, targets);
    PrintedReads(suites, docs, targets);
    TestsAdd(suites, docTests, targets);
  }

  /** A shard that prints its targets' binaries, all passing and quiet, is faithful. */
  lemma PrintedIsFaithful(run: ShardRun, build: string, suites: string -> Report, docs: string, docTests: nat)
    requires BuildOutput(build) && EndsLine(docs) && Totals(TallyText(docs), docTests)
    requires Clean(SuitesFor(suites, run.manifest.targets)) && multiset(run.manifest.targets)[Shards.UNIT_TESTS] <= 1
    requires run.output == build + Printed(suites, docs, run.manifest.targets)
    ensures Faithful(run, TestsOf(suites, docTests))
  {
    hide Printed, TallyText, SumOver, Clean, SuitesFor;
    PrintedEnds(suites, docs, run.manifest.targets);
    PrintedCounts(suites, docs, docTests, run.manifest.targets);
    TallyOfTexts(build, Printed(suites, docs, run.manifest.targets));
  }

  lemma {:induction false} InSuitesFor(suites: string -> Report, targets: seq<string>, s: Suite)
    ensures s in SuitesFor(suites, targets) <==> exists t :: t in targets && s in suites(t)
  {
    if targets != [] {
      var n := |targets| - 1;
      assert targets == targets[..n] + [targets[n]];
      InSuitesFor(suites, targets[..n], s);
    }
  }

  /** The tests are named by their paths, and every name and time is on one line. */
  predicate Ordinary(report: Report) {
    && PlainTimes(report) && PlainNames(report)
    && forall s, c :: s in report && c in s.cases ==> IsPath(c.name.GetOr("?"))
  }

  /** Some test fails, or has a path that starts with `result`. */
  predicate Troubled(report: Report) {
    exists s, c :: s in report && c in s.cases && (c.failure.Some? || StartsWith(c.name.GetOr("?"), "result"))
  }

  lemma UntroubledIsClean(report: Report)
    requires Ordinary(report) && !Troubled(report)
    ensures Clean(report)
  {
    hide Plain, Silent, StartsWith, Quiet, IsPath;
    forall s | s in report
      ensures QuietSuite(s)
    {
      SilentHeading(s.name.GetOr("?"));
      forall c | c in s.cases
        ensures Quiet(c)
      {
        OrdinaryIsQuiet(c);
      }
    }
  }

  /** With tests named by their paths, the merged run is counted as its passed tests, doctests included,
      exactly when none of its tests fails or has a path that starts with `result`; else it is refused. */
  lemma {:induction false} MergedCountByNames(
    runs: seq<ShardRun>, builds: seq<string>, suites: string -> Report, docs: string, docTests: nat)
    requires Merge(runs).Ok? && runs != [] && Shards.Distinct(runs[0].manifest.all)
    requires AllPrinted(runs, builds, suites, docs) && Totals(TallyText(docs), docTests)
    requires Ordinary(SuitesFor(suites, runs[0].manifest.all))
    ensures var all := runs[0].manifest.all;
            var total := SumOver(TestsOf(suites, docTests), all);
            Count(Merge(runs).value) == if Troubled(SuitesFor(suites, all)) || total == 0 then Refused else Ok(total)
  {
    hide Merge, Printed, TallyText, Count, SuitesFor, AllTargets, AllPrinted, SumOver, Plain, StartsWith;
    var all := runs[0].manifest.all;
    var report := SuitesFor(suites, all);
    SameTargets(runs);
    if Troubled(report) {
      var s, c :| s in report && c in s.cases && (c.failure.Some? || StartsWith(c.name.GetOr("?"), "result"));
      InSuitesFor(suites, all, s);
      var t :| t in all && s in suites(t);
      var i := TargetOfRun(runs, t);
      assert Spoils(s, c);
      MergedCountRefused(runs, builds, suites, docs, i, t, s, c);
    } else {
      UntroubledIsClean(report);
      ShardTheorems.OnceIn(all, Shards.UNIT_TESTS);
      PrintedCounts(suites, docs, docTests, all);
      CountFromTotal(Printed(suites, docs, all), SumOver(TestsOf(suites, docTests), all));
      MergedCountsAsUnsharded(runs, builds, suites, docs);
    }
  }
}

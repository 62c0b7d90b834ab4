/** `merge`: the outputs of the shards as one run's output, and what is counted from it. */
module MergedRuns {
  import opened Results
  import opened Text
  import opened Sorting
  import opened Sums
  import opened TestCount
  import opened CountTheorems
  import Shards
  import ShardTheorems

  /** A shard directory: its manifest and its captured output. */
  datatype ShardRun = ShardRun(manifest: Shards.Manifest, output: string)

  function Manifests(runs: seq<ShardRun>): (ms: seq<Shards.Manifest>)
    ensures |ms| == |runs| && forall i :: 0 <= i < |runs| ==> ms[i] == runs[i].manifest
  {
    seq(|runs|, i requires 0 <= i < |runs| => runs[i].manifest)
  }

  predicate IndexBefore(a: ShardRun, b: ShardRun) {
    a.manifest.index < b.manifest.index
  }

  function Outputs(runs: seq<ShardRun>): string {
    if runs == [] then [] else Outputs(runs[..|runs| - 1]) + runs[|runs| - 1].output
  }

  /** The outputs in shard order, unless the shards are not one complete run. */
  function Merge(runs: seq<ShardRun>): (r: Result<string>) {
    if Shards.MergeProblems(Manifests(runs)) != [] then Refused else Ok(Outputs(Sort(IndexBefore, runs)))
  }

  /** The copying loop of `merge`. */
  method MergeLoop(runs: seq<ShardRun>) returns (r: Result<string>)
    ensures r == Merge(runs)
  {
    hide Sort, Shards.MergeProblems;
    var problems := Shards.FindMergeProblems(Manifests(runs));
    if problems != [] {
      return Refused;
    }
    var sorted := Sort(IndexBefore, runs);
    var out: string := [];
    assert sorted[..0] == [];
    for i := 0 to |sorted|
      invariant out == Outputs(sorted[..i])
    {
      out := out + sorted[i].output;
      assert sorted[..i + 1][..i] == sorted[..i];
    }
    assert sorted[..|sorted|] == sorted;
    return Ok(out);
  }

  function OutputsOf(runs: seq<ShardRun>): (texts: seq<string>)
    ensures |texts| == |runs| && forall i :: 0 <= i < |runs| ==> texts[i] == runs[i].output
  {
    seq(|runs|, i requires 0 <= i < |runs| => runs[i].output)
  }

  lemma {:induction false} OutputsAre(runs: seq<ShardRun>)
    ensures Outputs(runs) == Concat(OutputsOf(runs))
  {
    if runs != [] {
      var n := |runs| - 1;
      OutputsAre(runs[..n]);
      assert OutputsOf(runs) == OutputsOf(runs[..n]) + [runs[n].output];
      ConcatLast(OutputsOf(runs[..n]), runs[n].output);
    }
  }

  lemma {:induction false} IndexTwice(ms: seq<Shards.Manifest>, i: nat, j: nat)
    requires i < j < |ms| && ms[i].index == ms[j].index
    ensures Shards.Indices(ms)[ms[i].index] >= 2
  {
    var n := |ms| - 1;
    if j < n {
      IndexTwice(ms[..n], i, j);
    } else {
      IndexOnce(ms[..n], i);
    }
  }

  lemma {:induction false} IndexOnce(ms: seq<Shards.Manifest>, i: nat)
    requires i < |ms|
    ensures Shards.Indices(ms)[ms[i].index] >= 1
  {
    if i < |ms| - 1 {
      IndexOnce(ms[..|ms| - 1], i);
    }
  }

  lemma IndexOrder()
    ensures StrictWeakOrder(IndexBefore)
  {
  }

  function AtIndex(index: int): ShardRun -> nat {
    (run: ShardRun) => if run.manifest.index == index then 1 else 0
  }

  lemma {:induction false} IndicesAre(runs: seq<ShardRun>, index: int)
    ensures Shards.Indices(Manifests(runs))[index] == SumOver(AtIndex(index), runs)
  {
    if runs != [] {
      var n := |runs| - 1;
      IndicesAre(runs[..n], index);
      assert Manifests(runs)[..n] == Manifests(runs[..n]);
    }
  }

  /** The shards of an accepted run have an order by index, and what is merged is their outputs in it. */
  lemma MergedInOrder(runs: seq<ShardRun>) returns (ordered: seq<ShardRun>)
    requires Merge(runs).Ok?
    ensures multiset(ordered) == multiset(runs)
    ensures forall i, j :: 0 <= i < j < |ordered| ==> ordered[i].manifest.index < ordered[j].manifest.index
    ensures Merge(runs).value == Concat(OutputsOf(ordered))
  {
    hide Sort, Outputs, Shards.MergeProblems, Shards.Indices, Shards.Ran, SumOver;
    ShardTheorems.MergeAcceptsIff(Manifests(runs));
    IndexOrder();
    SortPermutes(IndexBefore, runs);
    SortSorts(IndexBefore, runs);
    ordered := Sort(IndexBefore, runs);
    forall i, j | 0 <= i < j < |ordered|
      ensures ordered[i].manifest.index < ordered[j].manifest.index
    {
      var index := ordered[i].manifest.index;
      IndicesAre(runs, index);
      IndicesAre(ordered, index);
      SumOfPermutation(AtIndex(index), runs, ordered);
      assert !IndexBefore(ordered[j], ordered[i]);
      if index == ordered[j].manifest.index {
        IndexTwice(Manifests(ordered), i, j);
      }
    }
    OutputsAre(ordered);
  }

  predicate EndsLine(text: string) {
    text == [] || text[|text| - 1] == '\n'
  }

  /** The shard's output ends its last line and counts exactly the tests of the shard's targets. */
  predicate Faithful(run: ShardRun, tests: string -> nat) {
    && EndsLine(run.output)
    && Totals(TallyText(run.output), SumOver(tests, run.manifest.targets))
  }

  function TestsIn(tests: string -> nat): ShardRun -> nat {
    (run: ShardRun) => SumOver(tests, run.manifest.targets)
  }

  lemma {:induction false} OutputsTally(runs: seq<ShardRun>, tests: string -> nat)
    requires forall i :: 0 <= i < |runs| ==> Faithful(runs[i], tests)
    ensures EndsLine(Outputs(runs))
    ensures Totals(TallyText(Outputs(runs)), SumOver(TestsIn(tests), runs))
  {
    hide TallyText;
    if runs == [] {
      NothingToTally();
    } else {
      var n := |runs| - 1;
      OutputsTally(runs[..n], tests);
      TallyOfTexts(Outputs(runs[..n]), runs[n].output);
      assert Faithful(runs[n], tests);
    }
  }

  lemma NothingToTally()
    ensures TallyText([]) == Ok(Tally(0, 0))
  {
    assert Lines([]) == [];
    assert Texts([]) == [];
  }

  /** All the targets of these shards, shard after shard. */
  function AllTargets(runs: seq<ShardRun>): seq<string> {
    if runs == [] then [] else AllTargets(runs[..|runs| - 1]) + runs[|runs| - 1].manifest.targets
  }

  lemma {:induction false} TargetsAdd(runs: seq<ShardRun>, tests: string -> nat)
    ensures SumOver(TestsIn(tests), runs) == SumOver(tests, AllTargets(runs))
    ensures multiset(AllTargets(runs)) == Shards.Ran(Manifests(runs))
  {
    if runs != [] {
      var n := |runs| - 1;
      TargetsAdd(runs[..n], tests);
      SumOfConcat(tests, AllTargets(runs[..n]), runs[n].manifest.targets);
      assert Manifests(runs)[..n] == Manifests(runs[..n]);
    }
  }

  lemma {:induction false} TotalNeedsLines(lines: seq<string>)
    ensures TallyLines(lines).Ok? && TallyLines(lines).value.total > 0 ==> TallyLines(lines).value.lines > 0
  {
    hide ReadLine;
    if lines != [] {
      TotalNeedsLines(lines[..|lines| - 1]);
    }
  }

  lemma OnceEach(names: seq<string>, ran: multiset<string>)
    requires Shards.Distinct(names) && Shards.EachTargetOnce(ran, names)
    ensures multiset(names) == ran
  {
    forall t: string
      ensures multiset(names)[t] == ran[t]
    {
      ShardTheorems.OnceIn(names, t);
      assert t in names <==> t in multiset(names);
    }
  }

  /** The output merged from an accepted set of shards is counted as the sum over the listed targets,
      as the output of one unsharded run would be. */
  lemma CountOfMergedRun(runs: seq<ShardRun>, tests: string -> nat)
    requires Merge(runs).Ok?
    requires runs != [] && forall i :: 0 <= i < |runs| ==> Faithful(runs[i], tests)
    requires Shards.Distinct(runs[0].manifest.all)
    ensures var total := SumOver(tests, runs[0].manifest.all);
            Count(Merge(runs).value) == if total > 0 then Ok(total) else Refused
  {
    hide Sort, Faithful, TallyText, Shards.MergeProblems, Shards.Ran, Outputs, SumOver;
    var ms, sorted := Manifests(runs), Sort(IndexBefore, runs);
    ShardTheorems.MergeAcceptsIff(ms);
    SortPermutes(IndexBefore, runs);
    SameElements(sorted, runs);
    forall i | 0 <= i < |sorted|
      ensures Faithful(sorted[i], tests)
    {
      assert sorted[i] in runs;
    }
    OutputsTally(sorted, tests);
    SumOfPermutation(TestsIn(tests), sorted, runs);
    TargetsAdd(runs, tests);
    OnceEach(ms[0].all, Shards.Ran(ms));
    SumOfPermutation(tests, AllTargets(runs), ms[0].all);
    CountFromTotal(Outputs(sorted), SumOver(tests, ms[0].all));
  }

  lemma CountFromTotal(text: string, total: nat)
    requires Totals(TallyText(text), total)
    ensures Count(text) == if total > 0 then Ok(total) else Refused
  {
    hide TallyLines, SplitLines;
    TotalNeedsLines(SplitLines(text));
  }

  lemma {:induction false} SameTargets(runs: seq<ShardRun>)
    requires Merge(runs).Ok? && runs != [] && Shards.Distinct(runs[0].manifest.all)
    ensures multiset(AllTargets(runs)) == multiset(runs[0].manifest.all)
    ensures forall t :: t in runs[0].manifest.all ==> t in AllTargets(runs)
  {
    hide Shards.MergeProblems, Shards.Ran, Outputs, Sort, AllTargets;
    var ms := Manifests(runs);
    ShardTheorems.MergeAcceptsIff(ms);
    TargetsAdd(runs, (t: string) => 0);
    OnceEach(ms[0].all, Shards.Ran(ms));
    SameElements(AllTargets(runs), runs[0].manifest.all);
  }

  lemma {:induction false} AtMostOnce(runs: seq<ShardRun>, t: string, i: nat)
    requires i < |runs|
    ensures multiset(runs[i].manifest.targets)[t] <= multiset(AllTargets(runs))[t]
  {
    if i < |runs| - 1 {
      AtMostOnce(runs[..|runs| - 1], t, i);
    }
  }

  lemma {:induction false} TargetOfRun(runs: seq<ShardRun>, t: string) returns (i: nat)
    requires t in AllTargets(runs)
    ensures i < |runs| && t in runs[i].manifest.targets
  {
    var n := |runs| - 1;
    if t in runs[n].manifest.targets {
      i := n;
    } else {
      i := TargetOfRun(runs[..n], t);
    }
  }
}

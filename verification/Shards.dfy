/** `parallel-tests.py`: how the suite is split into shards, and which sets of shard manifests make
    one complete run. */
module Shards {
  import opened Results
  import opened LoadBalancing
  import opened Sorting

  /** The name under which everything but the integration tests goes, as one item of shard 0. */
  const UNIT_TESTS := "<lib, bins and doctests>"

  // ---------------------------------------------------------------- partition

  /** The least loaded shard, the lowest index on a tie. */
  function Least(load: seq<nat>): (i: nat)
    requires load != []
    ensures i < |load|
    ensures forall k: nat :: k < |load| ==> load[i] < load[k] || (load[i] == load[k] && i <= k)
  {
    if |load| == 1 then 0
    else
      var n := |load| - 1;
      var best := Least(load[..n]);
      if load[n] < load[best] then n else best
  }

  /** The weights of the jobs: the unit tests, then `n` targets of one unit each. */
  function Jobs(unitWeight: nat, n: nat): (ws: seq<nat>)
    ensures |ws| == n + 1 && ws[0] == unitWeight && forall j :: 1 <= j <= n ==> ws[j] == 1
  {
    [unitWeight] + seq(n, _ => 1)
  }

  function Loads(ws: seq<nat>, on: seq<nat>, m: nat): (loads: seq<nat>)
    requires |on| == |ws|
    ensures |loads| == m && forall k :: 0 <= k < m ==> loads[k] == Load(ws, on, k)
  {
    seq(m, k requires 0 <= k < m => Load(ws, on, k))
  }

  /** The shard of the unit tests and of each of `n` targets in turn. */
  function Spread(unitWeight: nat, n: nat, count: nat): (on: seq<nat>)
    requires count >= 1
    ensures Assigns(on, n + 1, count) && on[0] == 0
  {
    if n == 0 then [0]
    else
      var on := Spread(unitWeight, n - 1, count);
      on + [Least(Loads(Jobs(unitWeight, n - 1), on, count))]
  }

  /** The items placed in shard `k`, in order. */
  function Shard(items: seq<string>, on: seq<nat>, k: nat): seq<string>
    requires |on| == |items|
  {
    if items == [] then []
    else Shard(items[..|items| - 1], on[..|items| - 1], k) + if on[|items| - 1] == k then [items[|items| - 1]] else []
  }

  function ShardsOf(items: seq<string>, on: seq<nat>, count: nat): (shards: seq<seq<string>>)
    requires |on| == |items|
    ensures |shards| == count && forall k :: 0 <= k < count ==> shards[k] == Shard(items, on, k)
  {
    seq(count, k requires 0 <= k < count => Shard(items, on, k))
  }

  predicate Distinct(names: seq<string>) {
    forall i, j :: 0 <= i < j < |names| ==> names[i] != names[j]
  }

  /** The unit tests and then the targets in name order. */
  function Items(targets: seq<string>): (items: seq<string>) {
    [UNIT_TESTS] + Sort(Before, targets)
  }

  /** `partition`: each target, in name order, to the least loaded shard. */
  function Partition(targets: seq<string>, count: int, unitWeight: nat): (r: Result<seq<seq<string>>>) {
    if count < 1 || !Distinct(targets) then Refused
    else
      var items := Items(targets);
      SortPermutes(Before, targets);
      var shards := ShardsOf(items, Spread(unitWeight, |targets|, count), count);
      if [] in shards then Refused else Ok(shards)
  }

  lemma ShardStep(items: seq<string>, on: seq<nat>, item: string, i: nat, k: nat)
    requires |on| == |items|
    ensures Shard(items + [item], on + [i], k) == Shard(items, on, k) + if i == k then [item] else []
  {
    assert (items + [item])[..|items|] == items && (on + [i])[..|items|] == on;
  }

  /** Placing one more item appends to one shard and adds one to its load. */
  lemma SpreadStep(items: seq<string>, item: string, unitWeight: nat, count: nat)
    requires count >= 1 && |items| >= 1
    ensures var n := |items| - 1;
            var on := Spread(unitWeight, n, count);
            var loads := Loads(Jobs(unitWeight, n), on, count);
            var i := Least(loads);
            && Spread(unitWeight, n + 1, count) == on + [i]
            && ShardsOf(items + [item], on + [i], count) ==
               ShardsOf(items, on, count)[i := Shard(items, on, i) + [item]]
            && Loads(Jobs(unitWeight, n + 1), on + [i], count) == loads[i := loads[i] + 1]
  {
    hide Least, Shard, Load;
    var n := |items| - 1;
    var on, jobs := Spread(unitWeight, n, count), Jobs(unitWeight, n);
    var i := Least(Loads(jobs, on, count));
    JobsStep(unitWeight, n);
    ShardsStep(items, on, item, i, count);
    LoadsStep(jobs, on, 1, i, count);
  }

  lemma JobsStep(unitWeight: nat, n: nat)
    ensures Jobs(unitWeight, n + 1) == Jobs(unitWeight, n) + [1]
  {
  }

  lemma ShardsStep(items: seq<string>, on: seq<nat>, item: string, i: nat, count: nat)
    requires |on| == |items| && i < count
    ensures ShardsOf(items + [item], on + [i], count) == ShardsOf(items, on, count)[i := Shard(items, on, i) + [item]]
  {
    hide Shard;
    forall k: nat | k < count
      ensures ShardsOf(items + [item], on + [i], count)[k] ==
              ShardsOf(items, on, count)[i := Shard(items, on, i) + [item]][k]
    {
      ShardStep(items, on, item, i, k);
    }
  }

  lemma LoadsStep(ws: seq<nat>, on: seq<nat>, w: nat, i: nat, count: nat)
    requires |on| == |ws| && i < count
    ensures Loads(ws + [w], on + [i], count) == Loads(ws, on, count)[i := Load(ws, on, i) + w]
  {
    hide Load;
    forall k: nat | k < count
      ensures Loads(ws + [w], on + [i], count)[k] == Loads(ws, on, count)[i := Load(ws, on, i) + w][k]
    {
      OneMoreJob(ws, on, w, i, k);
    }
  }

  lemma FirstShard(item: string, unitWeight: nat, count: nat)
    requires count >= 1
    ensures ShardsOf([item], [0], count) == seq(count, k => if k == 0 then [item] else [])
    ensures Loads(Jobs(unitWeight, 0), [0], count) == seq(count, k => if k == 0 then unitWeight else 0)
  {
    assert Jobs(unitWeight, 0) == [unitWeight];
    forall k: nat
      ensures Shard([item], [0], k) == if k == 0 then [item] else []
      ensures Load([unitWeight], [0], k) == if k == 0 then unitWeight else 0
    {
      ShardStep([], [], item, 0, k);
      OneMoreJob([], [], unitWeight, 0, k);
      assert [] + [item] == [item] && [] + [unitWeight] == [unitWeight] && [] + [0] == [0];
    }
  }

  /** The loop of `partition`, with its two running lists. */
  method PartitionLoop(targets: seq<string>, count: int, unitWeight: nat) returns (r: Result<seq<seq<string>>>)
    ensures r == Partition(targets, count, unitWeight)
  {
    hide Spread, Least, Shard, ShardsOf, Loads, Load, Sort;
    if count < 1 {
      return Refused;
    }
    if !Distinct(targets) {
      return Refused;
    }
    var shards: seq<seq<string>> := seq(count, k => if k == 0 then [UNIT_TESTS] else []);
    var load: seq<nat> := seq(count, k => if k == 0 then unitWeight else 0);
    var sorted := Sort(Before, targets);
    SortPermutes(Before, targets);
    FirstShard(UNIT_TESTS, unitWeight, count);
    SpreadOfNothing(unitWeight, count);
    ghost var items := [UNIT_TESTS];
    for j := 0 to |sorted|
      invariant items == [UNIT_TESTS] + sorted[..j]
      invariant shards == ShardsOf(items, Spread(unitWeight, j, count), count)
      invariant load == Loads(Jobs(unitWeight, j), Spread(unitWeight, j, count), count)
    {
      var i := Least(load);
      SpreadStep(items, sorted[j], unitWeight, count);
      shards := shards[i := shards[i] + [sorted[j]]];
      load := load[i := load[i] + 1];
      items := items + [sorted[j]];
    }
    assert items == Items(targets);
    if [] in shards {
      return Refused;
    }
    return Ok(shards);
  }

  lemma SpreadOfNothing(unitWeight: nat, count: nat)
    requires count >= 1
    ensures Spread(unitWeight, 0, count) == [0]
  {
  }

  // ---------------------------------------------------------------- merge

  /** What a shard's manifest records. */
  datatype Manifest = Manifest(index: int, count: int, targets: seq<string>, all: seq<string>)

  datatype Problem =
    | NoManifests
    | CountsDisagree
    | TargetListsDisagree
    | NotOnce(index: int, times: nat)
    | OutsideRange(indices: set<int>)
    | NoShardRan(targets: set<string>)
    | RanTwice(targets: set<string>)
    | OutsideList(targets: set<string>)

  /** How often each target ran. */
  function Ran(ms: seq<Manifest>): multiset<string> {
    if ms == [] then multiset{} else Ran(ms[..|ms| - 1]) + multiset(ms[|ms| - 1].targets)
  }

  /** How often each shard index was reported. */
  function Indices(ms: seq<Manifest>): multiset<int> {
    if ms == [] then multiset{} else Indices(ms[..|ms| - 1]) + multiset{ms[|ms| - 1].index}
  }

  function Expected(ms: seq<Manifest>): set<string> {
    set m, t | m in ms && t in m.all :: t
  }

  function MaxCount(ms: seq<Manifest>): (c: int)
    requires ms != []
    ensures (exists m :: m in ms && m.count == c) && forall m :: m in ms ==> m.count <= c
  {
    if |ms| == 1 then ms[0].count
    else
      var rest := MaxCount(ms[1..]);
      assert forall m :: m in ms <==> m == ms[0] || m in ms[1..];
      if ms[0].count > rest then ms[0].count else rest
  }

  /** The shard numbers below `n` that were not reported exactly once. */
  function NotReportedOnce(indices: multiset<int>, n: nat): seq<Problem> {
    if n == 0 then []
    else NotReportedOnce(indices, n - 1) + if indices[n - 1] != 1 then [NotOnce(n - 1, indices[n - 1])] else []
  }

  function Outside(indices: multiset<int>, count: int): set<int> {
    set i | i in indices && !(0 <= i < count)
  }

  function When(condition: bool, problem: Problem): seq<Problem> {
    if condition then [problem] else []
  }

  /** What is wrong with how often each target ran. */
  function TargetProblems(expected: set<string>, ran: multiset<string>): seq<Problem> {
    var missing := set t | t in expected && t !in ran;
    var twice := set t | t in ran && ran[t] > 1;
    var unknown := set t | t in ran && t !in expected;
    When(missing != {}, NoShardRan(missing)) + When(twice != {}, RanTwice(twice)) +
      When(unknown != {}, OutsideList(unknown))
  }

  function Counts(ms: seq<Manifest>): set<int> {
    set m | m in ms :: m.count
  }

  /** The target lists, each up to the order it is listed in. */
  function TargetLists(ms: seq<Manifest>): set<multiset<string>> {
    set m | m in ms :: multiset(m.all)
  }

  function Disagreements(ms: seq<Manifest>): seq<Problem> {
    When(|Counts(ms)| != 1, CountsDisagree) + When(|TargetLists(ms)| != 1, TargetListsDisagree)
  }

  /** `merge_problems`: everything that keeps these manifests from being one whole run, in the order reported. */
  function MergeProblems(ms: seq<Manifest>): (problems: seq<Problem>) {
    if ms == [] then [NoManifests]
    else
      var count, indices := MaxCount(ms), Indices(ms);
      var outside := Outside(indices, count);
      Disagreements(ms)
      + NotReportedOnce(indices, if count < 0 then 0 else count)
      + When(outside != {}, OutsideRange(outside))
      + TargetProblems(Expected(ms), Ran(ms))
  }

  /** A running tally and the multiset it stands for. */
  ghost predicate Tallies(tally: map<string, nat>, ran: multiset<string>) {
    (forall t :: t in tally <==> t in ran) && forall t :: t in tally ==> tally[t] == ran[t]
  }

  method TallyTargets(targets: seq<string>, tally: map<string, nat>, ghost ran: multiset<string>)
    returns (next: map<string, nat>)
    requires Tallies(tally, ran)
    ensures Tallies(next, ran + multiset(targets))
  {
    next := tally;
    assert targets[..0] == [];
    for j := 0 to |targets|
      invariant Tallies(next, ran + multiset(targets[..j]))
    {
      var t := targets[j];
      next := next[t := (if t in next then next[t] else 0) + 1];
      assert targets[..j + 1] == targets[..j] + [t];
    }
    assert targets[..|targets|] == targets;
  }

  method TallyManifests(ms: seq<Manifest>) returns (indices: multiset<int>, tally: map<string, nat>)
    ensures indices == Indices(ms) && Tallies(tally, Ran(ms))
  {
    hide Tallies;
    indices, tally := multiset{}, map[];
    NothingTallied();
    assert ms[..0] == [];
    for j := 0 to |ms|
      invariant indices == Indices(ms[..j])
      invariant Tallies(tally, Ran(ms[..j]))
    {
      indices := indices + multiset{ms[j].index};
      tally := TallyTargets(ms[j].targets, tally, Ran(ms[..j]));
      assert ms[..j + 1][..j] == ms[..j];
    }
    assert ms[..|ms|] == ms;
  }

  lemma NothingTallied()
    ensures Tallies(map[], multiset{})
  {
  }

  method CheckIndices(indices: multiset<int>, n: nat) returns (problems: seq<Problem>)
    ensures problems == NotReportedOnce(indices, n)
  {
    problems := [];
    for i := 0 to n
      invariant problems == NotReportedOnce(indices, i)
    {
      if indices[i] != 1 {
        problems := problems + [NotOnce(i, indices[i])];
      }
    }
  }

  method CheckTargets(expected: set<string>, tally: map<string, nat>, ghost ran: multiset<string>)
    returns (problems: seq<Problem>)
    requires Tallies(tally, ran)
    ensures problems == TargetProblems(expected, ran)
  {
    var missing := set t | t in expected && t !in tally;
    var twice := set t | t in tally && tally[t] > 1;
    var unknown := set t | t in tally && t !in expected;
    assert missing == set t | t in expected && t !in ran;
    assert twice == set t | t in ran && ran[t] > 1;
    assert unknown == set t | t in ran && t !in expected;
    problems := When(missing != {}, NoShardRan(missing)) + When(twice != {}, RanTwice(twice)) +
      When(unknown != {}, OutsideList(unknown));
  }

  /** The loops of `merge_problems`. */
  method FindMergeProblems(ms: seq<Manifest>) returns (problems: seq<Problem>)
    ensures problems == MergeProblems(ms)
  {
    hide TargetProblems, Disagreements, NotReportedOnce, Outside, When, Expected, MaxCount, Tallies;
    if ms == [] {
      return [NoManifests];
    }
    problems := Disagreements(ms);
    var count := MaxCount(ms);
    var indices, tally := TallyManifests(ms);
    var wrong := CheckIndices(indices, if count < 0 then 0 else count);
    var outside := Outside(indices, count);
    problems := problems + wrong + When(outside != {}, OutsideRange(outside));
    wrong := CheckTargets(Expected(ms), tally, Ran(ms));
    problems := problems + wrong;
  }

  /** The shards agree on the shard count and the list of targets. */
  ghost predicate Agree(ms: seq<Manifest>) {
    forall a, b :: a in ms && b in ms ==> a.count == b.count && multiset(a.all) == multiset(b.all)
  }

  /** The indices are those of `count` shards, each once. */
  ghost predicate EachIndexOnce(indices: multiset<int>, count: int) {
    forall i :: indices[i] == if 0 <= i < count then 1 else 0
  }

  /** Each of these targets ran once, and nothing else did. */
  ghost predicate EachTargetOnce(ran: multiset<string>, all: seq<string>) {
    forall t :: ran[t] == if t in all then 1 else 0
  }

  /** Every shard of one run, each exactly once, and together they ran every listed target exactly once. */
  ghost predicate CompleteRun(ms: seq<Manifest>) {
    && ms != []
    && Agree(ms)
    && EachIndexOnce(Indices(ms), ms[0].count)
    && EachTargetOnce(Ran(ms), ms[0].all)
  }
}

/** What sharding promises: an optimal exact cover, and a merge that accepts exactly complete runs. */
module ShardTheorems {
  import opened Results
  import opened LoadBalancing
  import opened Sorting
  import opened Shards

  // ---------------------------------------------------------------- exact cover

  function Union(shards: seq<seq<string>>): multiset<string> {
    if shards == [] then multiset{} else Union(shards[..|shards| - 1]) + multiset(shards[|shards| - 1])
  }

  lemma {:induction false} UnionUpdate(shards: seq<seq<string>>, i: nat, item: string)
    requires i < |shards|
    ensures Union(shards[i := shards[i] + [item]]) == Union(shards) + multiset{item}
  {
    var n, longer := |shards| - 1, shards[i := shards[i] + [item]];
    if i == n {
      assert longer[..n] == shards[..n];
    } else {
      UnionUpdate(shards[..n], i, item);
      assert longer[..n] == shards[..n][i := shards[i] + [item]];
    }
  }

  lemma {:induction false} UnionOfNothing(count: nat)
    ensures Union(ShardsOf([], [], count)) == multiset{}
  {
    if count > 0 {
      UnionOfNothing(count - 1);
      assert ShardsOf([], [], count)[..count - 1] == ShardsOf([], [], count - 1);
    }
  }

  lemma {:induction false} ShardsCover(items: seq<string>, on: seq<nat>, count: nat)
    requires Assigns(on, |items|, count)
    ensures Union(ShardsOf(items, on, count)) == multiset(items)
  {
    if items == [] {
      UnionOfNothing(count);
    } else {
      hide ShardsOf, Union;
      var n := |items| - 1;
      var front, at, item, i := items[..n], on[..n], items[n], on[n];
      assert items == front + [item] && on == at + [i];
      ShardsStep(front, at, item, i, count);
      ShardsCover(front, at, count);
      UnionUpdate(ShardsOf(front, at, count), i, item);
    }
  }

  lemma {:induction false} FirstItemFirst(items: seq<string>, on: seq<nat>)
    requires |on| == |items| > 0 && on[0] == 0
    ensures Shard(items, on, 0) != [] && Shard(items, on, 0)[0] == items[0]
  {
    if |items| > 1 {
      FirstItemFirst(items[..|items| - 1], on[..|items| - 1]);
    }
  }

  /** Every target is in exactly one shard, the unit tests lead shard 0, and no shard is empty. */
  lemma PartitionCovers(targets: seq<string>, count: int, unitWeight: nat)
    requires Partition(targets, count, unitWeight).Ok?
    ensures var shards := Partition(targets, count, unitWeight).value;
            && |shards| == count >= 1
            && Union(shards) == multiset(targets) + multiset{UNIT_TESTS}
            && shards[0] != [] && shards[0][0] == UNIT_TESTS
            && [] !in shards
  {
    hide Sort, Shard, Spread;
    SortPermutes(Before, targets);
    var items, on := Items(targets), Spread(unitWeight, |targets|, count);
    ShardsCover(items, on, count);
    FirstItemFirst(items, on);
  }

  // ---------------------------------------------------------------- optimality

  lemma {:induction false} SpreadIsGreedy(unitWeight: nat, n: nat, count: nat)
    requires count >= 1
    ensures Greedy(Jobs(unitWeight, n), Spread(unitWeight, n, count), count)
  {
    hide Load, Least;
    var jobs := Jobs(unitWeight, n);
    if n == 0 {
      NoLoad(count);
      assert jobs[..0] == [];
      GreedyStep(jobs, [], 0, count);
      assert [] + [0] == [0];
    } else {
      SpreadIsGreedy(unitWeight, n - 1, count);
      JobsStep(unitWeight, n - 1);
      var on, before := Spread(unitWeight, n - 1, count), Jobs(unitWeight, n - 1);
      assert jobs[..n] == before;
      var loads := Loads(before, on, count);
      assert forall k: nat :: k < count ==> loads[Least(loads)] <= loads[k];
      hide Greedy;
      GreedyStep(jobs, on, Least(loads), count);
    }
  }

  lemma NoLoad(count: nat)
    ensures forall k: nat :: Load([], [], k) == 0
    ensures Greedy([], [], count)
  {
  }

  lemma {:induction false} SumOfJobs(unitWeight: nat, n: nat)
    ensures Sum(Jobs(unitWeight, n)) == unitWeight + n
  {
    if n == 0 {
      assert Jobs(unitWeight, 0) == [] + [unitWeight];
      SumOfAppend([], unitWeight);
    } else {
      JobsStep(unitWeight, n - 1);
      SumOfJobs(unitWeight, n - 1);
      SumOfAppend(Jobs(unitWeight, n - 1), 1);
    }
  }

  /** The least makespan there can be: the unit tests cannot be split, and all the work must fit. */
  function Optimum(unitWeight: nat, n: nat, count: nat): nat
    requires count >= 1
  {
    var share := (unitWeight + n + count - 1) / count;
    if unitWeight > share then unitWeight else share
  }

  /** No placement of the unit tests and the targets keeps every shard below the optimum. */
  lemma NoBetterPlacement(unitWeight: nat, n: nat, count: nat, on: seq<nat>, limit: nat)
    requires count >= 1 && Assigns(on, n + 1, count)
    requires Fits(Jobs(unitWeight, n), on, count, limit)
    ensures limit >= Optimum(unitWeight, n, count)
  {
    hide Load, Sum;
    var jobs := Jobs(unitWeight, n);
    TotalAtMost(jobs, on, count, limit);
    LoadsAddUp(jobs, on, count);
    SumOfJobs(unitWeight, n);
    CeilingBelow(unitWeight + n, count, limit);
    LoadHoldsJob(jobs, on, 0);
    assert Load(jobs, on, on[0]) <= limit;
  }

  lemma CeilingBelow(total: nat, count: nat, limit: nat)
    requires count >= 1 && total <= count * limit
    ensures (total + count - 1) / count <= limit
  {
    var q := (total + count - 1) / count;
    assert count * q <= total + count - 1;
    if q > limit {
      Scaled(count, limit + 1, q);
    }
  }

  lemma Scaled(count: nat, a: nat, b: nat)
    requires a <= b
    ensures count * a <= count * b
  {
  }

  lemma CeilingAbove(total: nat, count: nat, load: nat)
    requires count >= 1 && count * load <= total + (count - 1)
    ensures load <= (total + count - 1) / count
  {
    var q := (total + count - 1) / count;
    assert total + count - 1 < count * (q + 1);
    if load > q {
      Scaled(count, q + 1, load);
    }
  }

  lemma {:induction false} LoadHoldsJob(ws: seq<nat>, on: seq<nat>, j: nat)
    requires j < |ws| == |on|
    ensures Load(ws, on, on[j]) >= ws[j]
  {
    var n := |ws| - 1;
    if j < n {
      LoadHoldsJob(ws[..n], on[..n], j);
    }
  }

  /** The greedy placement meets the optimum. */
  lemma SpreadMeetsOptimum(unitWeight: nat, n: nat, count: nat, k: nat)
    requires count >= 1 && k < count
    ensures Load(Jobs(unitWeight, n), Spread(unitWeight, n, count), k) <= Optimum(unitWeight, n, count)
  {
    hide Load, Sum, Spread;
    var jobs, on := Jobs(unitWeight, n), Spread(unitWeight, n, count);
    var load := Load(jobs, on, k);
    if load > unitWeight {
      SpreadIsGreedy(unitWeight, n, count);
      var j := BusyMachineHasLastJob(jobs, on, k);
      LoadOfLastOn(jobs, on, j, k);
      NoLoad(count);
      assert jobs[..0] == [] && on[..0] == [];
      if j > 0 {
        ListBound(jobs, on, count, j, k);
        SumOfJobs(unitWeight, n);
        assert (count - 1) * jobs[j] == count - 1;
        CeilingAbove(unitWeight + n, count, load);
      }
    }
  }

  /** What a shard costs: one unit for each target, and shard 0 the unit tests besides. */
  function ShardWeight(shards: seq<seq<string>>, unitWeight: nat, k: nat): int
    requires k < |shards|
  {
    if k == 0 then unitWeight + |shards[0]| - 1 else |shards[k]|
  }

  lemma {:induction false} WeightIsLoad(items: seq<string>, on: seq<nat>, unitWeight: nat, k: nat)
    requires |on| == |items| >= 1 && on[0] == 0
    ensures Load(Jobs(unitWeight, |items| - 1), on, k) == |Shard(items, on, k)| + if k == 0 then unitWeight - 1 else 0
  {
    hide Jobs;
    var n := |items| - 1;
    assert items == items[..n] + [items[n]] && on == on[..n] + [on[n]];
    if n == 0 {
      assert items[..0] == [] && on[..0] == [] && Shard([], [], k) == [] && Load([], [], k) == 0;
      FirstJob(unitWeight);
      ShardStep([], [], items[0], 0, k);
      OneMoreJob([], [], unitWeight, 0, k);
    } else {
      WeightIsLoad(items[..n], on[..n], unitWeight, k);
      JobsStep(unitWeight, n - 1);
      ShardStep(items[..n], on[..n], items[n], on[n], k);
      OneMoreJob(Jobs(unitWeight, n - 1), on[..n], 1, on[n], k);
    }
  }

  lemma FirstJob(unitWeight: nat)
    ensures Jobs(unitWeight, 0) == [] + [unitWeight]
  {
  }

  /** The shards are as even as they can be: none is above the optimum, and one is at it. */
  lemma PartitionOptimal(targets: seq<string>, count: int, unitWeight: nat)
    requires Partition(targets, count, unitWeight).Ok?
    ensures var shards, best := Partition(targets, count, unitWeight).value, Optimum(unitWeight, |targets|, count);
            && |shards| == count
            && (forall k: nat :: k < count ==> ShardWeight(shards, unitWeight, k) <= best)
            && (exists k: nat :: k < count && ShardWeight(shards, unitWeight, k) == best)
  {
    hide Sort, Shard, Spread, Load, Optimum, Jobs;
    SortPermutes(Before, targets);
    var items, on, n := Items(targets), Spread(unitWeight, |targets|, count), |targets|;
    var shards, best := Partition(targets, count, unitWeight).value, Optimum(unitWeight, n, count);
    forall k: nat | k < count
      ensures ShardWeight(shards, unitWeight, k) == Load(Jobs(unitWeight, n), on, k) <= best
    {
      WeightIsLoad(items, on, unitWeight, k);
      SpreadMeetsOptimum(unitWeight, n, count, k);
    }
    SomeShardAtOptimum(unitWeight, n, count, on);
    var k: nat :| k < count && Load(Jobs(unitWeight, n), on, k) >= best;
    assert ShardWeight(shards, unitWeight, k) == best;
  }

  /** Every placement of the unit tests and the targets on as many shards, wherever the unit tests
      go, has a shard at or above the optimum. */
  lemma SomeShardAtOptimum(unitWeight: nat, n: nat, count: nat, on: seq<nat>)
    requires count >= 1 && Assigns(on, n + 1, count)
    ensures exists k: nat :: k < count && Load(Jobs(unitWeight, n), on, k) >= Optimum(unitWeight, n, count)
  {
    hide Load, Jobs, Optimum;
    var best := Optimum(unitWeight, n, count);
    if forall k: nat :: k < count ==> Load(Jobs(unitWeight, n), on, k) < best {
      assert Load(Jobs(unitWeight, n), on, 0) < best;
      NoBetterPlacement(unitWeight, n, count, on, best - 1);
    }
  }

  // ---------------------------------------------------------------- acceptance and order

  /** The number of items on a shard, not counting unit tests that weigh nothing. */
  function Weighty(unitWeight: nat, n: nat, count: nat, k: nat): nat
    requires count >= 1
  {
    Load(Jobs(if unitWeight > 0 then 1 else 0, n), Spread(unitWeight, n, count), k)
  }

  lemma WeightyStep(unitWeight: nat, n: nat, count: nat, k: nat)
    requires count >= 1 && n >= 1
    ensures var i := Spread(unitWeight, n, count)[n];
            Weighty(unitWeight, n, count, k) == Weighty(unitWeight, n - 1, count, k) + if i == k then 1 else 0
  {
    hide Least, Jobs, Load;
    var u := if unitWeight > 0 then 1 else 0;
    JobsStep(u, n - 1);
    OneMoreJob(Jobs(u, n - 1), Spread(unitWeight, n - 1, count), 1, Spread(unitWeight, n, count)[n], k);
  }

  /** The next item goes to an empty shard if there is one. */
  lemma NextGoesToEmpty(unitWeight: nat, n: nat, count: nat, e: nat)
    requires 1 <= e < count && n >= 1 && Weighty(unitWeight, n - 1, count, e) == 0
    ensures Weighty(unitWeight, n - 1, count, Spread(unitWeight, n, count)[n]) == 0
  {
    hide Jobs, Load, Least;
    var at, u := Spread(unitWeight, n - 1, count), if unitWeight > 0 then 1 else 0;
    var loads := Loads(Jobs(unitWeight, n - 1), at, count);
    var i := Least(loads);
    SameButFirst(unitWeight, u, at, n - 1, e);
    SameButFirst(unitWeight, u, at, n - 1, i);
    assert loads[i] <= loads[e];
  }

  lemma {:induction false} OneEachWhileEmpty(unitWeight: nat, n: nat, count: nat, e: nat, k: nat)
    requires 1 <= e < count && k < count && Weighty(unitWeight, n, count, e) == 0
    ensures Weighty(unitWeight, n, count, k) <= 1
  {
    if n == 0 {
      var u := if unitWeight > 0 then 1 else 0;
      FirstJob(u);
      OneMoreJob([], [], u, 0, k);
      assert [] + [0] == [0];
    } else {
      hide Weighty, Spread;
      WeightyStep(unitWeight, n, count, e);
      WeightyStep(unitWeight, n, count, k);
      OneEachWhileEmpty(unitWeight, n - 1, count, e, k);
      NextGoesToEmpty(unitWeight, n, count, e);
    }
  }

  /** Off shard 0 the unit tests' weight does not matter; on it, a lighter one weighs no more. */
  lemma {:induction false} SameButFirst(u: nat, v: nat, on: seq<nat>, n: nat, k: nat)
    requires |on| == n + 1 && on[0] == 0
    ensures k != 0 ==> Load(Jobs(u, n), on, k) == Load(Jobs(v, n), on, k)
    ensures k == 0 ==> Load(Jobs(u, n), on, k) - u == Load(Jobs(v, n), on, k) - v
  {
    hide Jobs;
    assert on == on[..n] + [on[n]];
    if n == 0 {
      FirstJob(u);
      FirstJob(v);
      assert on[..0] == [];
      OneMoreJob([], [], u, 0, k);
      OneMoreJob([], [], v, 0, k);
    } else {
      SameButFirst(u, v, on[..n], n - 1, k);
      JobsStep(u, n - 1);
      JobsStep(v, n - 1);
      OneMoreJob(Jobs(u, n - 1), on[..n], 1, on[n], k);
      OneMoreJob(Jobs(v, n - 1), on[..n], 1, on[n], k);
    }
  }

  lemma ShardSize(items: seq<string>, on: seq<nat>, u: nat, k: nat)
    requires |on| == |items| >= 1 && on[0] == 0 && k != 0
    ensures |Shard(items, on, k)| == Load(Jobs(u, |items| - 1), on, k)
  {
    WeightIsLoad(items, on, u, k);
  }

  /** Unit tests that weigh nothing leave shard 0 first in line for a target. */
  lemma FirstTarget(n: nat, count: nat)
    requires count >= 1 && n >= 1
    ensures Weighty(0, n, count, 0) >= 1
  {
    hide Jobs;
    if n > 1 {
      FirstTarget(n - 1, count);
      WeightyStep(0, n, count, 0);
    } else {
      var at := Spread(0, 0, count);
      var loads := Loads(Jobs(0, 0), at, count);
      SameButFirst(0, 0, at, 0, 0);
      FirstJob(0);
      OneMoreJob([], [], 0, 0, 0);
      assert [] + [0] == [0];
      assert loads[0] == 0;
      WeightyStep(0, 1, count, 0);
    }
  }

  /** A list is accepted exactly when its names are distinct and there is enough to go round: with one
      shard anything is, else each shard needs an item of its own, counting the unit tests unless they
      weigh nothing. */
  lemma PartitionAccepts(targets: seq<string>, count: int, unitWeight: nat)
    ensures Partition(targets, count, unitWeight).Ok? <==>
            && count >= 1 && Distinct(targets)
            && (count == 1 || |targets| + (if unitWeight > 0 then 1 else 0) >= count)
  {
    if count >= 1 && Distinct(targets) {
      hide Sort, ShardsOf, Spread;
      SortPermutes(Before, targets);
      SomeShardEmptyIff(Items(targets), unitWeight, count);
    }
  }

  lemma SomeShardEmptyIff(items: seq<string>, unitWeight: nat, count: nat)
    requires |items| >= 1 && count >= 1
    ensures [] in ShardsOf(items, Spread(unitWeight, |items| - 1, count), count) <==>
            count > 1 && |items| - 1 + (if unitWeight > 0 then 1 else 0) < count
  {
    hide Shard, Spread;
    var on := Spread(unitWeight, |items| - 1, count);
    FirstItemFirst(items, on);
    var shards := ShardsOf(items, on, count);
    if [] in shards {
      var e: nat :| e < count && shards[e] == [];
      EmptyShardMeansFew(items, unitWeight, count, e);
    } else if 1 < count {
      NoEmptyShardMeansEnough(items, unitWeight, count);
    }
  }

  lemma TotalWeighty(unitWeight: nat, n: nat, count: nat)
    requires count >= 1
    ensures TotalLoad(Jobs(if unitWeight > 0 then 1 else 0, n), Spread(unitWeight, n, count), count) ==
            n + if unitWeight > 0 then 1 else 0
  {
    var u := if unitWeight > 0 then 1 else 0;
    SumOfJobs(u, n);
    LoadsAddUp(Jobs(u, n), Spread(unitWeight, n, count), count);
  }

  lemma EmptyShardMeansFew(items: seq<string>, unitWeight: nat, count: nat, e: nat)
    requires |items| >= 1 && 1 <= e < count
    requires Shard(items, Spread(unitWeight, |items| - 1, count), e) == []
    ensures |items| - 1 + (if unitWeight > 0 then 1 else 0) < count
  {
    hide Spread, Jobs, Load;
    var n, u := |items| - 1, if unitWeight > 0 then 1 else 0;
    var on, jobs := Spread(unitWeight, n, count), Jobs(u, n);
    ShardSize(items, on, u, e);
    forall k: nat | k < count
      ensures Load(jobs + [1], on + [e], k) <= 1
    {
      OneEachWhileEmpty(unitWeight, n, count, e, k);
      OneMoreJob(jobs, on, 1, e, k);
    }
    TotalAtMost(jobs + [1], on + [e], count, 1);
    LoadsAddUp(jobs + [1], on + [e], count);
    SumOfAppend(jobs, 1);
    SumOfJobs(u, n);
  }

  lemma NoEmptyShardMeansEnough(items: seq<string>, unitWeight: nat, count: nat)
    requires |items| >= 1 && count > 1
    requires [] !in ShardsOf(items, Spread(unitWeight, |items| - 1, count), count)
    ensures |items| - 1 + (if unitWeight > 0 then 1 else 0) >= count
  {
    hide Spread, Jobs, Load, Shard;
    var n, u := |items| - 1, if unitWeight > 0 then 1 else 0;
    var on, shards := Spread(unitWeight, n, count), ShardsOf(items, Spread(unitWeight, |items| - 1, count), count);
    forall k: nat | k < count
      ensures Load(Jobs(u, n), on, k) >= 1
    {
      assert shards[k] in shards;
      if k > 0 {
        ShardSize(items, on, u, k);
      } else if unitWeight > 0 {
        LoadHoldsJob(Jobs(u, n), on, 0);
        FirstJobWeight(u, n);
      } else {
        assert shards[1] in shards;
        ShardSize(items, on, u, 1);
        AnyTargetAtAll(items, on, 1);
        FirstTarget(n, count);
      }
    }
    TotalAtLeast(Jobs(u, n), on, count, 1);
    TotalWeighty(unitWeight, n, count);
  }

  lemma FirstJobWeight(u: nat, n: nat)
    ensures |Jobs(u, n)| == n + 1 && Jobs(u, n)[0] == u
  {
  }

  lemma AnyTargetAtAll(items: seq<string>, on: seq<nat>, k: nat)
    requires |on| == |items| >= 1 && on[0] == 0 && k != 0 && Shard(items, on, k) != []
    ensures |items| >= 2
  {
  }

  /** The shards depend only on the set of target names, the count and the weight. */
  lemma PartitionForgetsOrder(targets: seq<string>, shuffled: seq<string>, count: int, unitWeight: nat)
    requires multiset(targets) == multiset(shuffled)
    ensures Partition(targets, count, unitWeight) == Partition(shuffled, count, unitWeight)
  {
    hide Sort, Before, ShardsOf;
    BeforeIsTotalOrder();
    SortOfPermutation(Before, targets, shuffled);
    SameElements(targets, shuffled);
    if Distinct(targets) {
      DistinctForgetsOrder(targets, shuffled);
    }
    if Distinct(shuffled) {
      DistinctForgetsOrder(shuffled, targets);
    }
  }

  lemma DistinctForgetsOrder(a: seq<string>, b: seq<string>)
    requires multiset(a) == multiset(b) && Distinct(a)
    ensures Distinct(b)
  {
    forall i, j | 0 <= i < j < |b|
      ensures b[i] != b[j]
    {
      if b[i] == b[j] {
        TwiceIn(b, i, j);
        assert multiset(a)[b[i]] >= 2;
        OnceIn(a, b[i]);
      }
    }
  }

  lemma TwiceIn(s: seq<string>, i: nat, j: nat)
    requires i < j < |s| && s[i] == s[j]
    ensures multiset(s)[s[i]] >= 2
  {
    assert s == s[..i] + [s[i]] + s[i + 1..j] + [s[j]] + s[j + 1..];
  }

  lemma {:induction false} OnceIn(s: seq<string>, x: string)
    requires Distinct(s)
    ensures multiset(s)[x] <= 1
  {
    if s != [] {
      var n := |s| - 1;
      assert s == s[..n] + [s[n]];
      OnceIn(s[..n], x);
      assert x == s[n] ==> x !in s[..n];
      assert x !in s[..n] ==> x !in multiset(s[..n]);
    }
  }

  // ---------------------------------------------------------------- merging

  lemma AllEqualIffOne<T>(s: set<T>, x: T)
    requires x in s
    ensures |s| == 1 <==> forall y :: y in s ==> y == x
  {
    if forall y :: y in s ==> y == x {
      assert s == {x};
    } else {
      var y :| y in s && y != x;
      assert |s - {x}| == |s| - 1;
      assert y in s - {x};
    }
  }

  lemma {:induction false} ReportedOnceIff(indices: multiset<int>, n: nat)
    ensures NotReportedOnce(indices, n) == [] <==> forall i :: 0 <= i < n ==> indices[i] == 1
  {
    if n > 0 {
      ReportedOnceIff(indices, n - 1);
    }
  }

  lemma DisagreementsIff(ms: seq<Manifest>)
    requires ms != []
    ensures Disagreements(ms) == [] <==> Agree(ms)
  {
    var first := ms[0];
    assert first in ms;
    assert first.count in Counts(ms) && multiset(first.all) in TargetLists(ms);
    AllEqualIffOne(Counts(ms), first.count);
    AllEqualIffOne(TargetLists(ms), multiset(first.all));
    if Disagreements(ms) == [] {
      forall m | m in ms
        ensures m.count == first.count && multiset(m.all) == multiset(first.all)
      {
        assert m.count in Counts(ms) && multiset(m.all) in TargetLists(ms);
      }
    }
  }

  lemma TargetProblemsIff(expected: set<string>, ran: multiset<string>)
    ensures TargetProblems(expected, ran) == [] <==> forall t :: ran[t] == if t in expected then 1 else 0
  {
    var missing := set t | t in expected && t !in ran;
    var twice := set t | t in ran && ran[t] > 1;
    var unknown := set t | t in ran && t !in expected;
    assert TargetProblems(expected, ran) == [] <==> missing == {} && twice == {} && unknown == {};
    if TargetProblems(expected, ran) == [] {
      forall t
        ensures ran[t] == if t in expected then 1 else 0
      {
        assert t !in missing && t !in twice && t !in unknown;
      }
    }
  }

  lemma NoProblemsIff(ms: seq<Manifest>)
    requires ms != []
    ensures var count := MaxCount(ms);
            MergeProblems(ms) == [] <==>
            && Disagreements(ms) == []
            && NotReportedOnce(Indices(ms), if count < 0 then 0 else count) == []
            && Outside(Indices(ms), count) == {}
            && TargetProblems(Expected(ms), Ran(ms)) == []
  {
    hide Disagreements, NotReportedOnce, TargetProblems, Ran, Indices, Expected, Outside, MaxCount;
  }

  lemma IndicesIff(indices: multiset<int>, count: int)
    ensures NotReportedOnce(indices, if count < 0 then 0 else count) == [] && Outside(indices, count) == {}
       <==> EachIndexOnce(indices, count)
  {
    hide NotReportedOnce;
    ReportedOnceIff(indices, if count < 0 then 0 else count);
    assert forall i :: i in indices && !(0 <= i < count) ==> i in Outside(indices, count);
    assert forall i :: i in indices <==> indices[i] > 0;
  }

  lemma TargetsIff(ms: seq<Manifest>)
    requires ms != [] && Agree(ms)
    ensures TargetProblems(Expected(ms), Ran(ms)) == [] <==> EachTargetOnce(Ran(ms), ms[0].all)
  {
    hide TargetProblems, Ran, Expected;
    ExpectedWhenAgreed(ms);
    TargetProblemsIff(Expected(ms), Ran(ms));
  }

  /** `merge_problems` finds nothing exactly when the manifests are one complete run. */
  lemma MergeAcceptsIff(ms: seq<Manifest>)
    ensures MergeProblems(ms) == [] <==> CompleteRun(ms)
  {
    if ms != [] {
      hide MergeProblems, Disagreements, NotReportedOnce, TargetProblems, Ran, Indices, Expected, Outside, MaxCount,
           EachIndexOnce, EachTargetOnce, Agree;
      NoProblemsIff(ms);
      DisagreementsIff(ms);
      if Agree(ms) {
        CountWhenAgreed(ms);
        IndicesIff(Indices(ms), MaxCount(ms));
        TargetsIff(ms);
      }
    }
  }

  /** What is wrong with the manifests, problem by problem. */
  ghost predicate IsProblem(ms: seq<Manifest>, p: Problem) {
    match p
    case NoManifests => ms == []
    case CountsDisagree => exists a, b :: a in ms && b in ms && a.count != b.count
    case TargetListsDisagree => exists a, b :: a in ms && b in ms && multiset(a.all) != multiset(b.all)
    case NotOnce(index, times) =>
      ms != [] && 0 <= index < MaxCount(ms) && times == Indices(ms)[index] && times != 1
    case OutsideRange(indices) =>
      ms != [] && indices != {} && forall i :: i in indices <==> i in Indices(ms) && !(0 <= i < MaxCount(ms))
    case NoShardRan(targets) =>
      ms != [] && targets != {} && forall t :: t in targets <==> t in Expected(ms) && Ran(ms)[t] == 0
    case RanTwice(targets) => ms != [] && targets != {} && forall t :: t in targets <==> Ran(ms)[t] > 1
    case OutsideList(targets) =>
      ms != [] && targets != {} && forall t :: t in targets <==> Ran(ms)[t] > 0 && t !in Expected(ms)
  }

  lemma {:induction false} NotOnceIff(indices: multiset<int>, n: nat, p: Problem)
    ensures p in NotReportedOnce(indices, n) <==>
            p.NotOnce? && 0 <= p.index < n && p.times == indices[p.index] && p.times != 1
  {
    if n > 0 {
      NotOnceIff(indices, n - 1, p);
    }
  }

  lemma CountsDiffer(ms: seq<Manifest>)
    requires ms != []
    ensures |Counts(ms)| != 1 <==> exists a, b :: a in ms && b in ms && a.count != b.count
  {
    var first := ms[0];
    assert first in ms && first.count in Counts(ms);
    AllEqualIffOne(Counts(ms), first.count);
    if |Counts(ms)| != 1 {
      var y :| y in Counts(ms) && y != first.count;
      var m :| m in ms && m.count == y;
    }
    forall m | m in ms
      ensures m.count in Counts(ms)
    {
    }
  }

  lemma ListsDiffer(ms: seq<Manifest>)
    requires ms != []
    ensures |TargetLists(ms)| != 1 <==> exists a, b :: a in ms && b in ms && multiset(a.all) != multiset(b.all)
  {
    var first := ms[0];
    assert first in ms && multiset(first.all) in TargetLists(ms);
    AllEqualIffOne(TargetLists(ms), multiset(first.all));
    if |TargetLists(ms)| != 1 {
      var y :| y in TargetLists(ms) && y != multiset(first.all);
      var m :| m in ms && multiset(m.all) == y;
    }
    forall m | m in ms
      ensures multiset(m.all) in TargetLists(ms)
    {
    }
  }

  lemma DisagreementIff(ms: seq<Manifest>, p: Problem)
    requires ms != []
    ensures p in Disagreements(ms) <==> (p.CountsDisagree? || p.TargetListsDisagree?) && IsProblem(ms, p)
  {
    hide Counts, TargetLists, Ran, Indices, Expected, MaxCount;
    CountsDiffer(ms);
    ListsDiffer(ms);
  }

  lemma TargetProblemIff(ms: seq<Manifest>, p: Problem)
    requires ms != []
    ensures p in TargetProblems(Expected(ms), Ran(ms)) <==>
            (p.NoShardRan? || p.RanTwice? || p.OutsideList?) && IsProblem(ms, p)
  {
    hide Ran, Expected;
    var expected, ran := Expected(ms), Ran(ms);
    var missing := set t | t in expected && t !in ran;
    var twice := set t | t in ran && ran[t] > 1;
    var unknown := set t | t in ran && t !in expected;
    match p
    case NoShardRan(targets) => assert IsProblem(ms, p) <==> targets != {} && targets == missing;
    case RanTwice(targets) => assert IsProblem(ms, p) <==> targets != {} && targets == twice;
    case OutsideList(targets) => assert IsProblem(ms, p) <==> targets != {} && targets == unknown;
    case _ =>
  }

  lemma SameSet(a: set<int>, b: set<int>)
    requires forall i :: i in a <==> i in b
    ensures a == b
  {
    forall i | i in a
      ensures i in b
    {
    }
    forall i | i in b
      ensures i in a
    {
    }
    assert a <= b && b <= a;
  }

  lemma OutsideIff(ms: seq<Manifest>, p: Problem)
    requires ms != []
    ensures var outside := Outside(Indices(ms), MaxCount(ms));
            p in When(outside != {}, OutsideRange(outside)) <==> p.OutsideRange? && IsProblem(ms, p)
  {
    hide Indices, MaxCount;
    var outside := Outside(Indices(ms), MaxCount(ms));
    assert forall i :: i in outside <==> i in Indices(ms) && !(0 <= i < MaxCount(ms));
    if p.OutsideRange? && IsProblem(ms, p) {
      SameSet(p.indices, outside);
    }
  }

  /** The problems found are exactly those there are. */
  lemma ProblemIff(ms: seq<Manifest>, p: Problem)
    ensures p in MergeProblems(ms) <==> IsProblem(ms, p)
  {
    if ms != [] {
      hide Disagreements, NotReportedOnce, TargetProblems, Ran, Indices, Expected, Outside, MaxCount, When;
      DisagreementIff(ms, p);
      NotOnceIff(Indices(ms), if MaxCount(ms) < 0 then 0 else MaxCount(ms), p);
      OutsideIff(ms, p);
      TargetProblemIff(ms, p);
    }
  }

  lemma CountWhenAgreed(ms: seq<Manifest>)
    requires ms != [] && Agree(ms)
    ensures MaxCount(ms) == ms[0].count
  {
    assert ms[0] in ms;
  }

  lemma ExpectedWhenAgreed(ms: seq<Manifest>)
    requires ms != [] && Agree(ms)
    ensures forall t :: t in Expected(ms) <==> t in ms[0].all
  {
    forall t
      ensures t in Expected(ms) <==> t in ms[0].all
    {
      assert forall m :: m in ms ==> (t in m.all <==> t in multiset(m.all));
      assert ms[0] in ms;
    }
  }

  // ---------------------------------------------------------------- the manifests of a run

  /** All items, shard after shard, as every manifest lists them. */
  function AllItems(shards: seq<seq<string>>): seq<string> {
    if shards == [] then [] else AllItems(shards[..|shards| - 1]) + shards[|shards| - 1]
  }

  lemma {:induction false} AllItemsAreUnion(shards: seq<seq<string>>)
    ensures multiset(AllItems(shards)) == Union(shards)
  {
    if shards != [] {
      AllItemsAreUnion(shards[..|shards| - 1]);
    }
  }

  /** What `run_shard` writes for shard `i`. */
  function ManifestOf(shards: seq<seq<string>>, i: nat): Manifest
    requires i < |shards|
  {
    Manifest(i, |shards|, shards[i], AllItems(shards))
  }

  /** The manifests that arrive when these shards report, in this order. */
  function Reported(shards: seq<seq<string>>, picks: seq<nat>): (ms: seq<Manifest>)
    requires forall j :: 0 <= j < |picks| ==> picks[j] < |shards|
    ensures |ms| == |picks| && forall j :: 0 <= j < |ms| ==> ms[j] == ManifestOf(shards, picks[j])
  {
    seq(|picks|, j requires 0 <= j < |picks| => ManifestOf(shards, picks[j]))
  }

  /** Each of the first `n` shards reported exactly once. */
  ghost predicate EachOnce(picks: seq<nat>, n: nat) {
    forall i: nat :: multiset(picks)[i] == if i < n then 1 else 0
  }

  lemma {:induction false} IndicesOfReported(shards: seq<seq<string>>, picks: seq<nat>, i: int)
    requires forall j :: 0 <= j < |picks| ==> picks[j] < |shards|
    ensures Indices(Reported(shards, picks))[i] == if i < 0 then 0 else multiset(picks)[i as nat]
  {
    if picks != [] {
      var n := |picks| - 1;
      IndicesOfReported(shards, picks[..n], i);
      assert Reported(shards, picks)[..n] == Reported(shards, picks[..n]);
      assert picks == picks[..n] + [picks[n]];
    }
  }

  /** The items of the picked shards, in the order of the picks. */
  function Picked(shards: seq<seq<string>>, picks: seq<nat>): (some: seq<seq<string>>)
    requires forall j :: 0 <= j < |picks| ==> picks[j] < |shards|
    ensures |some| == |picks| && forall j :: 0 <= j < |some| ==> some[j] == shards[picks[j]]
  {
    seq(|picks|, j requires 0 <= j < |picks| => shards[picks[j]])
  }

  lemma {:induction false} RanIsPickedUnion(shards: seq<seq<string>>, picks: seq<nat>)
    requires forall j :: 0 <= j < |picks| ==> picks[j] < |shards|
    ensures Ran(Reported(shards, picks)) == Union(Picked(shards, picks))
  {
    if picks != [] {
      var n := |picks| - 1;
      RanIsPickedUnion(shards, picks[..n]);
      assert Reported(shards, picks)[..n] == Reported(shards, picks[..n]);
      assert Picked(shards, picks)[..n] == Picked(shards, picks[..n]);
    }
  }

  function Without<T>(s: seq<T>, i: nat): (rest: seq<T>)
    requires i < |s|
    ensures |rest| == |s| - 1
  {
    s[..i] + s[i + 1..]
  }

  lemma {:induction false} UnionWithout(shards: seq<seq<string>>, i: nat)
    requires i < |shards|
    ensures Union(Without(shards, i)) + multiset(shards[i]) == Union(shards)
  {
    var n := |shards| - 1;
    if i == n {
      assert Without(shards, i) == shards[..n];
    } else {
      UnionWithout(shards[..n], i);
      var rest := Without(shards, i);
      assert rest[..n - 1] == Without(shards[..n], i);
    }
  }

  /** Picking every shard once gives all the items, whatever the order. */
  lemma {:induction false} PickedUnionOfAll(shards: seq<seq<string>>, picks: seq<nat>)
    requires forall j :: 0 <= j < |picks| ==> picks[j] < |shards|
    requires EachOnce(picks, |shards|)
    ensures Union(Picked(shards, picks)) == Union(shards)
    decreases |shards|
  {
    var n := |shards| - 1;
    if shards == [] {
      assert |picks| == |multiset(picks)| == 0;
    } else {
      hide Union;
      assert n in multiset(picks);
      var i: nat :| i < |picks| && picks[i] == n;
      var rest := Without<nat>(picks, i);
      RemovedOnce(picks, i, n);
      hide EachOnce;
      PickedUnionOfAll(shards[..n], rest);
      PickedWithout(shards, picks, i);
      UnionWithout(Picked(shards, picks), i);
      UnionLast(shards);
    }
  }

  lemma UnionLast(shards: seq<seq<string>>)
    requires shards != []
    ensures Union(shards) == Union(shards[..|shards| - 1]) + multiset(shards[|shards| - 1])
  {
  }

  lemma PickedWithout(shards: seq<seq<string>>, picks: seq<nat>, i: nat)
    requires shards != [] && i < |picks| && forall j :: 0 <= j < |picks| ==> picks[j] < |shards|
    requires forall j :: 0 <= j < |picks| - 1 ==> Without<nat>(picks, i)[j] < |shards| - 1
    ensures Without(Picked(shards, picks), i) == Picked(shards[..|shards| - 1], Without<nat>(picks, i))
  {
  }

  lemma RemovedOnce(picks: seq<nat>, i: nat, n: nat)
    requires i < |picks| && picks[i] == n && EachOnce(picks, n + 1)
    ensures EachOnce(Without<nat>(picks, i), n)
    ensures forall j :: 0 <= j < |picks| - 1 ==> Without<nat>(picks, i)[j] < n
  {
    var rest := Without<nat>(picks, i);
    assert picks == picks[..i] + [n] + picks[i + 1..];
    assert multiset(picks) == multiset(rest) + multiset{n};
    forall k: nat
      ensures multiset(rest)[k] == if k < n then 1 else 0
    {
      assert multiset(picks)[k] == multiset(rest)[k] + if k == n then 1 else 0;
    }
    forall j | 0 <= j < |rest|
      ensures rest[j] < n
    {
      assert rest[j] in multiset(rest);
    }
  }

  lemma IndicesOnceIff(shards: seq<seq<string>>, picks: seq<nat>)
    requires forall j :: 0 <= j < |picks| ==> picks[j] < |shards|
    ensures EachIndexOnce(Indices(Reported(shards, picks)), |shards|) <==> EachOnce(picks, |shards|)
  {
    hide Indices, Reported;
    var indices := Indices(Reported(shards, picks));
    forall i: int
      ensures indices[i] == if i < 0 then 0 else multiset(picks)[i as nat]
    {
      IndicesOfReported(shards, picks, i);
    }
    if EachIndexOnce(indices, |shards|) {
      forall i: nat
        ensures multiset(picks)[i] == if i < |shards| then 1 else 0
      {
        assert indices[i] == multiset(picks)[i];
      }
    }
  }

  /** The items of a split are all different unless a target bears the reserved name. */
  lemma ItemsOnceIff(targets: seq<string>, count: int, unitWeight: nat)
    requires Partition(targets, count, unitWeight).Ok?
    ensures var shards := Partition(targets, count, unitWeight).value;
            EachTargetOnce(Union(shards), AllItems(shards)) <==> UNIT_TESTS !in targets
  {
    PartitionCovers(targets, count, unitWeight);
    PartitionAccepts(targets, count, unitWeight);
    hide Partition;
    var shards := Partition(targets, count, unitWeight).value;
    AllItemsAreUnion(shards);
    UnionOnceIff(Union(shards), AllItems(shards), targets, UNIT_TESTS);
  }

  lemma UnionOnceIff(union: multiset<string>, all: seq<string>, targets: seq<string>, unit: string)
    requires Distinct(targets) && union == multiset(targets) + multiset{unit} && multiset(all) == union
    ensures EachTargetOnce(union, all) <==> unit !in targets
  {
    forall t
      ensures (t in all <==> union[t] > 0) && (t in targets <==> multiset(targets)[t] > 0) && multiset(targets)[t] <= 1
    {
      OnceIn(targets, t);
      assert t in all <==> t in multiset(all);
      assert t in targets <==> t in multiset(targets);
    }
    assert union[unit] == multiset(targets)[unit] + 1;
    assert forall t :: t != unit ==> union[t] == multiset(targets)[t];
  }

  lemma ReportedAgree(shards: seq<seq<string>>, picks: seq<nat>)
    requires forall j :: 0 <= j < |picks| ==> picks[j] < |shards|
    ensures Agree(Reported(shards, picks))
  {
    var ms := Reported(shards, picks);
    assert forall m :: m in ms ==> m.count == |shards| && m.all == AllItems(shards);
  }

  /** The manifests of a split are accepted exactly when every shard reported once and no target bears
      the reserved name of the unit tests; so a run with a shard dropped or repeated is refused. */
  lemma ReportedRunAccepted(targets: seq<string>, count: int, unitWeight: nat, picks: seq<nat>)
    requires Partition(targets, count, unitWeight).Ok?
    requires forall j :: 0 <= j < |picks| ==> picks[j] < |Partition(targets, count, unitWeight).value|
    ensures MergeProblems(Reported(Partition(targets, count, unitWeight).value, picks)) == [] <==>
            EachOnce(picks, count) && UNIT_TESTS !in targets
  {
    PartitionCovers(targets, count, unitWeight);
    ItemsOnceIff(targets, count, unitWeight);
    hide MergeProblems, Partition, Indices, Ran, Union, EachTargetOnce, EachIndexOnce, Agree;
    var shards := Partition(targets, count, unitWeight).value;
    var ms := Reported(shards, picks);
    MergeAcceptsIff(ms);
    ReportedAgree(shards, picks);
    IndicesOnceIff(shards, picks);
    if EachOnce(picks, count) {
      assert multiset(picks)[0] == 1;
      assert 0 in multiset(picks);
      RanIsPickedUnion(shards, picks);
      PickedUnionOfAll(shards, picks);
    }
  }

  /** The failing family is not empty: a single target bearing the reserved name is split, and then the
      one shard's own manifest is refused. */
  lemma ReservedNameIsRefused(unitWeight: nat)
    ensures Partition([UNIT_TESTS], 1, unitWeight).Ok? && |Partition([UNIT_TESTS], 1, unitWeight).value| == 1
    ensures EachOnce([0], 1) && MergeProblems(Reported(Partition([UNIT_TESTS], 1, unitWeight).value, [0])) != []
  {
    var targets: seq<string> := [UNIT_TESTS];
    hide Partition, MergeProblems, Reported;
    PartitionAccepts(targets, 1, unitWeight);
    PartitionCovers(targets, 1, unitWeight);
    ReportedRunAccepted(targets, 1, unitWeight, [0]);
  }
}

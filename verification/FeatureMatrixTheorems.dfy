/** What `partition` promises: an exact cover on capable pools, a makespan within Graham's bound of
    any other split, and a result that does not depend on the order of the file. */
module FeatureMatrixTheorems {
  import opened Results
  import opened LoadBalancing
  import opened Sorting
  import opened Sums
  import opened FeatureMatrix

  // ---------------------------------------------------------------- exact cover

  /** All the combinations of a split, each as often as it is listed. */
  function Members(groups: seq<seq<Combo>>): multiset<Combo> {
    if groups == [] then multiset{} else Members(groups[..|groups| - 1]) + multiset(groups[|groups| - 1])
  }

  lemma {:induction false} MembersUpdate(groups: seq<seq<Combo>>, i: nat, group: seq<Combo>, c: Combo)
    requires i < |groups| && multiset(group) == multiset(groups[i]) + multiset{c}
    ensures Members(groups[i := group]) == Members(groups) + multiset{c}
  {
    var n := |groups| - 1;
    if i == n {
      assert groups[i := group][..n] == groups[..n];
    } else {
      MembersUpdate(groups[..n], i, group, c);
      assert groups[i := group][..n] == groups[..n][i := group];
    }
  }

  lemma {:induction false} MembersOfNothing(m: nat)
    ensures Members(Groups([], [], m)) == multiset{}
  {
    if m > 0 {
      MembersOfNothing(m - 1);
      assert Groups([], [], m)[..m - 1] == Groups([], [], m - 1);
    }
  }

  lemma {:induction false} GroupsCover(cs: seq<Combo>, on: seq<nat>, m: nat)
    requires Assigns(on, |cs|, m)
    ensures Members(Groups(cs, on, m)) == multiset(cs)
  {
    if cs == [] {
      MembersOfNothing(m);
    } else {
      hide Groups;
      var n := |cs| - 1;
      var front, at, c, i := cs[..n], on[..n], cs[n], on[n];
      assert cs == front + [c] && on == at + [i];
      GroupsStep(front, at, c, i, m);
      GroupsCover(front, at, m);
      MembersUpdate(Groups(front, at, m), i, Group(front, at, i) + [c], c);
    }
  }

  lemma {:induction false} PlacedWhereAble(groupsPools: seq<string>, pools: Pools, cs: seq<Combo>, j: nat)
    requires forall p :: p in groupsPools ==> p in pools
    requires Placement(groupsPools, pools, cs).Ok? && j < |cs|
    ensures CanRun(groupsPools, pools, cs[j], Placement(groupsPools, pools, cs).value[j])
  {
    hide CanRun, Pick, Able;
    var n := |cs| - 1;
    if j < n {
      PlacedWhereAble(groupsPools, pools, cs[..n], j);
      assert cs[..n][j] == cs[j];
    }
  }

  lemma {:induction false} InGroup(cs: seq<Combo>, on: seq<nat>, k: nat, c: Combo) returns (j: nat)
    requires |on| == |cs| && c in Group(cs, on, k)
    ensures j < |cs| && cs[j] == c && on[j] == k
  {
    var n := |cs| - 1;
    if c in Group(cs[..n], on[..n], k) {
      j := InGroup(cs[..n], on[..n], k, c);
    } else {
      j := n;
    }
  }

  /** Every combination is in exactly one group, as often as it was listed, on a pool that has what it
      requires, and no group is left with nothing. */
  lemma PartitionCovers(items: seq<Combo>, groupsPools: seq<string>, pools: Pools)
    requires Partition(items, groupsPools, pools).Ok?
    ensures var groups := Partition(items, groupsPools, pools).value;
            && |groups| == |groupsPools|
            && (forall p :: p in groupsPools ==> p in pools)
            && Members(groups) == multiset(items)
            && [] !in groups
            && forall k: nat, c :: k < |groups| && c in groups[k] ==> CanRun(groupsPools, pools, c, k)
  {
    hide Sort, Placement, Group, CanRun;
    var cs := Sort(Precedes, items);
    var on := Placement(groupsPools, pools, cs).value;
    var groups := Partition(items, groupsPools, pools).value;
    SortPermutes(Precedes, items);
    GroupsCover(cs, on, |groupsPools|);
    forall k: nat, c | k < |groups| && c in groups[k]
      ensures CanRun(groupsPools, pools, c, k)
    {
      var j := InGroup(cs, on, k, c);
      PlacedWhereAble(groupsPools, pools, cs, j);
    }
  }

  /** No group gets a combination its pool has not the tools for, and none that tests anything, by target,
      library or whole suite, goes to a pool that cannot run tests. */
  lemma PartitionRespectsNeeds(items: seq<Combo>, groupsPools: seq<string>, pools: Pools, k: nat, c: Combo)
    requires Partition(items, groupsPools, pools).Ok?
    requires k < |Partition(items, groupsPools, pools).value| && c in Partition(items, groupsPools, pools).value[k]
    ensures k < |groupsPools| && groupsPools[k] in pools
    ensures forall tool :: tool in c.needs ==> tool in pools[groupsPools[k]]
    ensures c.tests != [] || c.suite || c.lib ==> "tests" in pools[groupsPools[k]]
  {
    hide Partition;
    PartitionCovers(items, groupsPools, pools);
    assert CanRun(groupsPools, pools, c, k);
    assert forall tool :: tool in c.needs ==> tool in c.Requires();
  }

  /** A combination that can be put somewhere is only kept from a group by a tool it needs or by tests it
      runs: a pool that has those can run it. */
  lemma CanRunIff(groupsPools: seq<string>, pools: Pools, c: Combo, k: nat)
    requires k < |groupsPools| && forall p :: p in groupsPools ==> p in pools
    ensures CanRun(groupsPools, pools, c, k) <==>
            && (forall tool :: tool in c.needs ==> tool in pools[groupsPools[k]])
            && (c.tests != [] || c.suite || c.lib ==> "tests" in pools[groupsPools[k]])
  {
    assert forall tool :: tool in c.needs ==> tool in c.Requires();
  }

  /** What a combination weighs: one for its lint, one more for each test target and for the library's
      tests, and eight for the whole suite. */
  lemma WeightLaws(c: Combo, target: string)
    ensures c.tests == [] && !c.suite && !c.lib ==> c.Weight() == 1
    ensures c.(tests := c.tests + [target]).Weight() == c.Weight() + 1
    ensures !c.lib ==> c.(lib := true).Weight() == c.Weight() + 1
    ensures !c.suite ==> c.(suite := true).Weight() == c.Weight() + 8
  {
  }

  // ---------------------------------------------------------------- makespan

  function GroupWeight(group: seq<Combo>): nat {
    Sum(Weights(group))
  }

  lemma WeightOfAppend(group: seq<Combo>, c: Combo)
    ensures GroupWeight(group + [c]) == GroupWeight(group) + c.Weight()
  {
    assert Weights(group + [c])[..|group|] == Weights(group);
  }

  lemma {:induction false} GroupWeightIsLoad(cs: seq<Combo>, on: seq<nat>, k: nat)
    requires |on| == |cs|
    ensures GroupWeight(Group(cs, on, k)) == Load(Weights(cs), on, k)
  {
    if cs != [] {
      hide GroupWeight;
      var n := |cs| - 1;
      GroupWeightIsLoad(cs[..n], on[..n], k);
      WeightOfAppend(Group(cs[..n], on[..n], k), cs[n]);
      assert Weights(cs)[..n] == Weights(cs[..n]);
      assert Group(cs[..n], on[..n], k) + [] == Group(cs[..n], on[..n], k);
    } else {
      assert Weights([]) == [];
    }
  }

  /** Every group's pool can run every combination, as when all groups share one pool. */
  ghost predicate AllCanRun(groupsPools: seq<string>, pools: Pools, cs: seq<Combo>)
    requires forall p :: p in groupsPools ==> p in pools
  {
    forall k: nat, c :: k < |groupsPools| && c in cs ==> CanRun(groupsPools, pools, c, k)
  }

  lemma PickIsLeast(groupsPools: seq<string>, pools: Pools, c: Combo, loads: seq<nat>)
    requires (forall p :: p in groupsPools ==> p in pools) && groupsPools != [] && |loads| == |groupsPools|
    requires forall k: nat :: k < |groupsPools| ==> CanRun(groupsPools, pools, c, k)
    ensures var able := Able(groupsPools, pools, c, |groupsPools|);
            able != [] && forall k: nat :: k < |groupsPools| ==> loads[Pick(loads, able)] <= loads[k]
  {
    hide CanRun, Pick;
    var able := Able(groupsPools, pools, c, |groupsPools|);
    assert 0 in able;
    assert forall k: nat :: k < |groupsPools| ==> k in able;
  }

  lemma {:induction false} PlacementIsGreedy(groupsPools: seq<string>, pools: Pools, cs: seq<Combo>)
    requires (forall p :: p in groupsPools ==> p in pools) && AllCanRun(groupsPools, pools, cs) && groupsPools != []
    ensures Placement(groupsPools, pools, cs).Ok?
    ensures Greedy(Weights(cs), Placement(groupsPools, pools, cs).value, |groupsPools|)
  {
    hide CanRun, Load, Pick, Able;
    if cs != [] {
      var n, m := |cs| - 1, |groupsPools|;
      assert cs[n] in cs;
      PlacementIsGreedy(groupsPools, pools, cs[..n]);
      var at := Placement(groupsPools, pools, cs[..n]).value;
      var loads := Loads(cs[..n], at, m);
      PickIsLeast(groupsPools, pools, cs[n], loads);
      assert Weights(cs)[..n] == Weights(cs[..n]);
      hide Greedy, AllCanRun, Weights;
      GreedyStep(Weights(cs), at, Pick(loads, Able(groupsPools, pools, cs[n], m)), m);
    }
  }

  lemma PrecedesTransitive(a: Combo, b: Combo, c: Combo)
    ensures !Precedes(a, a)
    ensures Precedes(a, b) && Precedes(b, c) ==> Precedes(a, c)
    ensures !Precedes(a, b) && !Precedes(b, c) ==> !Precedes(a, c)
  {
    BeforeIsTotalOrder();
    hide Before;
  }

  lemma PrecedesIsOrder()
    ensures StrictWeakOrder(Precedes)
  {
    hide Precedes;
    forall a: Combo, b: Combo, c: Combo
      ensures !Precedes(a, a)
      ensures Precedes(a, b) && Precedes(b, c) ==> Precedes(a, c)
      ensures !Precedes(a, b) && !Precedes(b, c) ==> !Precedes(a, c)
    {
      PrecedesTransitive(a, b, c);
    }
  }

  lemma SortedHeaviestFirst(items: seq<Combo>)
    ensures HeaviestFirst(Weights(Sort(Precedes, items)))
  {
    hide Sort, Before;
    PrecedesIsOrder();
    hide StrictWeakOrder;
    SortSorts(Precedes, items);
    var cs := Sort(Precedes, items);
    assert forall i, j :: 0 <= i < j < |cs| ==> !Precedes(cs[j], cs[i]);
  }

  lemma {:induction false} LastOfGroup(cs: seq<Combo>, on: seq<nat>, k: nat) returns (j: nat)
    requires |on| == |cs| && Group(cs, on, k) != []
    ensures LastOn(on, j, k) && cs[j] == Group(cs, on, k)[|Group(cs, on, k)| - 1]
  {
    var n := |cs| - 1;
    if on[n] == k {
      j := n;
    } else {
      j := LastOfGroup(cs[..n], on[..n], k);
    }
  }

  /** When every group can run everything, `m` times a group's weight is at most the weight of all the
      combinations plus `m - 1` times that of the last combination put in the group. */
  lemma PartitionListBound(items: seq<Combo>, groupsPools: seq<string>, pools: Pools, k: nat)
    requires Partition(items, groupsPools, pools).Ok? && AllCanRun(groupsPools, pools, items) && k < |groupsPools|
    ensures var groups, m := Partition(items, groupsPools, pools).value, |groupsPools|;
            && |groups| == m && groups[k] != []
            && m * GroupWeight(groups[k]) <= GroupWeight(items) + (m - 1) * groups[k][|groups[k]| - 1].Weight()
  {
    hide Sort, Placement, Group, CanRun, GroupWeight, Load, Greedy;
    var cs, m := Sort(Precedes, items), |groupsPools|;
    SortPermutes(Precedes, items);
    SameElements(cs, items);
    PlacementIsGreedy(groupsPools, pools, cs);
    var on := Placement(groupsPools, pools, cs).value;
    var groups := Partition(items, groupsPools, pools).value;
    assert groups[k] in groups;
    var j := LastOfGroup(cs, on, k);
    ListBound(Weights(cs), on, m, j, k);
    GroupWeightIsLoad(cs, on, k);
    WeightOfPermutation(cs, items);
    assert GroupWeight(cs) == Sum(Weights(cs)) by { WeightIsSum(cs); }
  }

  lemma WeightIsSum(cs: seq<Combo>)
    ensures GroupWeight(cs) == Sum(Weights(cs))
  {
  }

  function WeightOf(c: Combo): nat {
    c.Weight()
  }

  lemma {:induction false} WeightIsSumOver(cs: seq<Combo>)
    ensures GroupWeight(cs) == SumOver(WeightOf, cs)
  {
    if cs != [] {
      var n := |cs| - 1;
      WeightIsSumOver(cs[..n]);
      WeightOfAppend(cs[..n], cs[n]);
      assert cs == cs[..n] + [cs[n]];
    }
  }

  lemma WeightOfRemoval(cs: seq<Combo>, i: nat)
    requires i < |cs|
    ensures GroupWeight(cs[..i] + cs[i + 1..]) + cs[i].Weight() == GroupWeight(cs)
  {
    hide GroupWeight, SumOver;
    WeightIsSumOver(cs);
    WeightIsSumOver(cs[..i] + cs[i + 1..]);
    SumOfRemoval(WeightOf, cs, i);
  }

  lemma RemovalPermutes<T>(cs: seq<T>, i: nat)
    requires i < |cs|
    ensures multiset(cs[..i] + cs[i + 1..]) + multiset{cs[i]} == multiset(cs)
  {
    assert cs == cs[..i] + [cs[i]] + cs[i + 1..];
  }

  lemma CancelOne<T>(a: multiset<T>, b: multiset<T>, c: T)
    requires a + multiset{c} == b + multiset{c}
    ensures a == b
  {
    assert a == (a + multiset{c}) - multiset{c};
    assert b == (b + multiset{c}) - multiset{c};
  }

  lemma WeightOfPermutation(a: seq<Combo>, b: seq<Combo>)
    requires multiset(a) == multiset(b)
    ensures GroupWeight(a) == GroupWeight(b)
  {
    hide GroupWeight, SumOver;
    WeightIsSumOver(a);
    WeightIsSumOver(b);
    SumOfPermutation(WeightOf, a, b);
  }

  /** Any split of the same combinations, as a placement of the sorted list with the same loads. */
  lemma {:induction false} SplitAsPlacement(cs: seq<Combo>, groups: seq<seq<Combo>>) returns (on: seq<nat>)
    requires Members(groups) == multiset(cs)
    ensures Assigns(on, |cs|, |groups|)
    ensures forall k: nat :: k < |groups| ==> Load(Weights(cs), on, k) == GroupWeight(groups[k])
    decreases |cs|
  {
    if cs == [] {
      on := [];
      forall k: nat | k < |groups|
        ensures GroupWeight(groups[k]) == 0
      {
        EmptySplit(groups, k);
      }
    } else {
      hide GroupWeight, Load, Weights, Members;
      var n := |cs| - 1;
      var c := cs[n];
      assert cs == cs[..n] + [c];
      var k, rest := TakeOut(groups, c);
      CancelOne(Members(rest), multiset(cs[..n]), c);
      var at := SplitAsPlacement(cs[..n], rest);
      on := at + [k];
      forall l: nat | l < |groups|
        ensures Load(Weights(cs), on, l) == GroupWeight(groups[l])
      {
        GroupStep(cs[..n], at, c, k, l);
      }
    }
  }

  /** One combination taken out of the group it is in. */
  lemma TakeOut(groups: seq<seq<Combo>>, c: Combo) returns (k: nat, rest: seq<seq<Combo>>)
    requires c in Members(groups)
    ensures k < |groups| == |rest| && Members(rest) + multiset{c} == Members(groups)
    ensures forall l: nat :: l < |groups| ==>
            GroupWeight(groups[l]) == GroupWeight(rest[l]) + if l == k then c.Weight() else 0
  {
    hide GroupWeight;
    var i: nat;
    k, i := FindMember(groups, c);
    hide Members;
    var group := groups[k];
    var shorter := group[..i] + group[i + 1..];
    rest := groups[k := shorter];
    RemovalPermutes(group, i);
    MembersUpdate(rest, k, group, c);
    assert rest[k := group] == groups;
    WeightOfRemoval(group, i);
  }

  lemma {:induction false} FindMember(groups: seq<seq<Combo>>, c: Combo) returns (k: nat, i: nat)
    requires c in Members(groups)
    ensures k < |groups| && i < |groups[k]| && groups[k][i] == c
  {
    var n := |groups| - 1;
    if c in groups[n] {
      k := n;
      i :| 0 <= i < |groups[n]| && groups[n][i] == c;
    } else {
      k, i := FindMember(groups[..n], c);
    }
  }

  lemma {:induction false} EmptySplit(groups: seq<seq<Combo>>, k: nat)
    requires Members(groups) == multiset{} && k < |groups|
    ensures groups[k] == []
  {
    var n := |groups| - 1;
    assert multiset(groups[n]) <= Members(groups);
    assert |multiset(groups[n])| == |groups[n]|;
    if k < n {
      EmptySplit(groups[..n], k);
    }
  }

  /** The main bound: when every group can run everything, no group weighs more than
      `4/3 - 1/(3m)` times the heaviest group of any other split of the same combinations. */
  lemma PartitionNearOptimal(
    items: seq<Combo>, groupsPools: seq<string>, pools: Pools, others: seq<seq<Combo>>, limit: nat, k: nat)
    requires Partition(items, groupsPools, pools).Ok? && AllCanRun(groupsPools, pools, items) && k < |groupsPools|
    requires |others| == |groupsPools| && Members(others) == multiset(items)
    requires forall i: nat :: i < |others| ==> GroupWeight(others[i]) <= limit
    ensures var groups, m := Partition(items, groupsPools, pools).value, |groupsPools|;
            |groups| == m && 3 * m * GroupWeight(groups[k]) <= (4 * m - 1) * limit
  {
    hide Sort, Placement, Group, CanRun, GroupWeight, Load, Greedy, HeaviestFirst;
    var cs, m := Sort(Precedes, items), |groupsPools|;
    SortPermutes(Precedes, items);
    SameElements(cs, items);
    SortedHeaviestFirst(items);
    PlacementIsGreedy(groupsPools, pools, cs);
    var on := Placement(groupsPools, pools, cs).value;
    var there := SplitAsPlacement(cs, others);
    HeaviestFirstBound(Weights(cs), on, there, m, limit, k);
    GroupWeightIsLoad(cs, on, k);
  }

  // ---------------------------------------------------------------- refusals

  /** A group's size counts the jobs placed on it. */
  lemma {:induction false} GroupSize(cs: seq<Combo>, on: seq<nat>, k: nat)
    requires |on| == |cs|
    ensures Load(Ones(|cs|), on, k) == |Group(cs, on, k)|
    ensures Load(Weights(cs), on, k) >= Load(Ones(|cs|), on, k)
  {
    if cs != [] {
      var n := |cs| - 1;
      GroupSize(cs[..n], on[..n], k);
      assert Ones(|cs|)[..n] == Ones(n) && Weights(cs)[..n] == Weights(cs[..n]);
    }
  }

  /** While some group is still empty, the greedy rule never gives another one a second combination. */
  lemma {:induction false} OneEachWhileEmpty(cs: seq<Combo>, on: seq<nat>, m: nat, e: nat, k: nat)
    requires Assigns(on, |cs|, m) && Greedy(Weights(cs), on, m) && e < m && k < m && Group(cs, on, e) == []
    ensures |Group(cs, on, k)| <= 1
  {
    if cs != [] {
      var n := |cs| - 1;
      assert Weights(cs)[..n] == Weights(cs[..n]);
      assert forall j: nat :: j < n ==> LeastLoaded(Weights(cs), on, m, j);
      GreedyPrefix(Weights(cs), on, m, n);
      OneEachWhileEmpty(cs[..n], on[..n], m, e, k);
      if on[n] == k {
        assert LeastLoaded(Weights(cs), on, m, n);
        GroupSize(cs[..n], on[..n], k);
        EmptyGroupHasNoLoad(cs[..n], on[..n], e);
      }
    }
  }

  lemma EmptyGroupHasNoLoad(cs: seq<Combo>, on: seq<nat>, k: nat)
    requires |on| == |cs| && Group(cs, on, k) == []
    ensures Load(Weights(cs), on, k) == 0
  {
    GroupWeightIsLoad(cs, on, k);
    assert Weights([]) == [];
  }

  /** When every group can run everything, a list is refused exactly when it has fewer combinations
      than there are groups. */
  lemma PartitionAccepts(items: seq<Combo>, groupsPools: seq<string>, pools: Pools)
    requires groupsPools != [] && (forall p :: p in groupsPools ==> p in pools) && AllCanRun(groupsPools, pools, items)
    ensures Partition(items, groupsPools, pools).Ok? <==> |items| >= |groupsPools|
  {
    hide Sort, Placement, Group, CanRun, Load, Greedy, Sum, Ones;
    var cs, m := Sort(Precedes, items), |groupsPools|;
    SortPermutes(Precedes, items);
    SameElements(cs, items);
    PlacementIsGreedy(groupsPools, pools, cs);
    var on := Placement(groupsPools, pools, cs).value;
    var ones := Ones(|cs|);
    SumOfOnes(|cs|);
    LoadsAddUp(ones, on, m);
    if [] in Groups(cs, on, m) {
      var e: nat :| e < m && Group(cs, on, e) == [];
      forall k: nat | k < m
        ensures Load(ones + [1], on + [e], k) <= 1
      {
        OneEachWhileEmpty(cs, on, m, e, k);
        GroupSize(cs, on, k);
        OneMoreJob(ones, on, 1, e, k);
      }
      TotalAtMost(ones + [1], on + [e], m, 1);
      LoadsAddUp(ones + [1], on + [e], m);
      SumOfAppend(ones, 1);
    } else {
      forall k: nat | k < m
        ensures Load(ones, on, k) >= 1
      {
        GroupSize(cs, on, k);
        assert Groups(cs, on, m)[k] in Groups(cs, on, m);
      }
      TotalAtLeast(ones, on, m, 1);
    }
  }

  // ---------------------------------------------------------------- order of the file

  /** The sort key does not tell the two apart. */
  predicate Twins(a: Combo, b: Combo) {
    a.features == b.features && a.Weight() == b.Weight()
  }

  ghost predicate NoTwins(items: seq<Combo>) {
    forall a, b :: a in items && b in items && a != b ==> !Twins(a, b)
  }

  /** The split depends only on which combinations are listed, when no two of them are twins. */
  lemma PartitionForgetsOrder(items: seq<Combo>, shuffled: seq<Combo>, groupsPools: seq<string>, pools: Pools)
    requires NoTwins(items) && multiset(items) == multiset(shuffled)
    ensures Partition(items, groupsPools, pools) == Partition(shuffled, groupsPools, pools)
  {
    hide Sort, Placement, Before;
    PrecedesIsOrder();
    BeforeIsTotalOrder();
    SortOfPermutation(Precedes, items, shuffled);
  }

  /** All that any of these combinations requires. */
  function Tools(items: seq<Combo>): set<string> {
    set c, t | c in items && t in c.Requires() :: t
  }

  lemma ToolsSuffice(items: seq<Combo>, tools: set<string>)
    requires Tools(items) <= tools
    ensures AllCanRun(["p"], map["p" := tools], items)
  {
    forall k: nat, c | k < 1 && c in items
      ensures CanRun(["p"], map["p" := tools], c, k)
    {
      assert forall t :: t in c.Requires() ==> t in Tools(items);
    }
  }

  lemma TwinsTie(a: Combo)
    ensures Ties(Precedes, (c: Combo) => Twins(a, c))
  {
    BeforeIsTotalOrder();
  }

  /** On one group that can run everything, any two listed twins come out in the order listed. */
  lemma PartitionKeepsOrderOfTwins(a: Combo, b: Combo, rest: seq<Combo>, tools: set<string>)
    requires a != b && Twins(a, b) && Tools([a, b] + rest) <= tools
    ensures Partition([a, b] + rest, ["p"], map["p" := tools]).Ok? &&
            Partition([b, a] + rest, ["p"], map["p" := tools]).Ok?
    ensures Partition([a, b] + rest, ["p"], map["p" := tools]) != Partition([b, a] + rest, ["p"], map["p" := tools])
  {
    hide Partition, Precedes, Tools, Twins, Sort;
    var pools := map["p" := tools];
    var one, other := [a, b] + rest, [b, a] + rest;
    SameTools(one, other, tools);
    ToolsSuffice(one, tools);
    ToolsSuffice(other, tools);
    OneGroupTakesAll(one, "p", pools);
    OneGroupTakesAll(other, "p", pools);
    var twin := (c: Combo) => Twins(a, c);
    assert twin(a) && twin(b) by {
      TwinOfItself(a);
    }
    TwinsTie(a);
    PrecedesIsOrder();
    SortIsStable(Precedes, twin, one);
    SortIsStable(Precedes, twin, other);
    OnlyOfTwo(twin, a, b, rest);
    OnlyOfTwo(twin, b, a, rest);
    assert Only(twin, Sort(Precedes, one))[0] == a && Only(twin, Sort(Precedes, other))[0] == b;
  }

  lemma TwinOfItself(a: Combo)
    ensures Twins(a, a)
  {
  }

  lemma SameTools(one: seq<Combo>, other: seq<Combo>, tools: set<string>)
    requires (forall c :: c in other ==> c in one) && Tools(one) <= tools
    ensures Tools(other) <= tools
  {
  }

  lemma OnlyOfTwo(p: Combo -> bool, a: Combo, b: Combo, rest: seq<Combo>)
    requires p(a) && p(b)
    ensures Only(p, [a, b] + rest) == [a, b] + Only(p, rest)
  {
    assert ([a, b] + rest)[1..] == [b] + rest && ([b] + rest)[1..] == rest;
    assert Only(p, [b] + rest) == [b] + Only(p, rest);
  }

  /** Whatever the groups and pools, the order of the list does not show. */
  ghost predicate ForgetsOrder(items: seq<Combo>) {
    forall shuffled: seq<Combo>, groupsPools: seq<string>, pools: Pools ::
      multiset(shuffled) == multiset(items) ==>
        Partition(shuffled, groupsPools, pools) == Partition(items, groupsPools, pools)
  }

  /** The split depends only on which combinations are listed, for every shuffle, every list of groups
      and every set of pools, exactly when no two different listed combinations share features and weight. */
  lemma PartitionForgetsOrderIff(items: seq<Combo>)
    ensures ForgetsOrder(items) <==> NoTwins(items)
  {
    hide Partition, Twins;
    if NoTwins(items) {
      forall shuffled: seq<Combo>, groupsPools: seq<string>, pools: Pools | multiset(shuffled) == multiset(items)
        ensures Partition(shuffled, groupsPools, pools) == Partition(items, groupsPools, pools)
      {
        PartitionForgetsOrder(items, shuffled, groupsPools, pools);
      }
    } else {
      var a, b :| a in items && b in items && a != b && Twins(a, b);
      var rest := WithoutTwo(items, a, b);
      var tools := Tools([a, b] + rest);
      PartitionKeepsOrderOfTwins(a, b, rest, tools);
      assert multiset([a, b] + rest) == multiset(items) == multiset([b, a] + rest);
    }
  }

  lemma WithoutTwo(items: seq<Combo>, a: Combo, b: Combo) returns (rest: seq<Combo>)
    requires a in items && b in items && a != b
    ensures multiset([a, b] + rest) == multiset(items) && multiset([b, a] + rest) == multiset(items)
  {
    var more := WithoutOne(items, a);
    assert b in multiset([a] + more);
    assert b in more;
    rest := WithoutOne(more, b);
    TwoInFront(a, b, rest, more);
  }

  lemma WithoutOne(items: seq<Combo>, a: Combo) returns (rest: seq<Combo>)
    requires a in items
    ensures multiset([a] + rest) == multiset(items)
  {
    var i :| 0 <= i < |items| && items[i] == a;
    rest := items[..i] + items[i + 1..];
    RemovalPermutes(items, i);
  }

  lemma TwoInFront(a: Combo, b: Combo, rest: seq<Combo>, more: seq<Combo>)
    requires multiset([b] + rest) == multiset(more)
    ensures multiset([a, b] + rest) == multiset([a] + more) && multiset([b, a] + rest) == multiset([a] + more)
  {
    assert [a, b] + rest == [a] + ([b] + rest);
    assert multiset([a, b] + rest) == multiset{a} + multiset([b] + rest);
    assert multiset([b, a] + rest) == multiset{b, a} + multiset(rest);
  }

  lemma {:induction false} AllInOneGroup(cs: seq<Combo>, on: seq<nat>)
    requires Assigns(on, |cs|, 1)
    ensures Group(cs, on, 0) == cs
  {
    if cs != [] {
      AllInOneGroup(cs[..|cs| - 1], on[..|cs| - 1]);
    }
  }

  lemma OneGroupTakesAll(items: seq<Combo>, pool: string, pools: Pools)
    requires items != [] && pool in pools && AllCanRun([pool], pools, items)
    ensures Partition(items, [pool], pools) == Ok([Sort(Precedes, items)])
  {
    hide Sort, Placement, Group, AllCanRun;
    PartitionAccepts(items, [pool], pools);
    var cs := Sort(Precedes, items);
    var on := Placement([pool], pools, cs).value;
    AllInOneGroup(cs, on);
    assert Groups(cs, on, 1) == [cs];
  }
}

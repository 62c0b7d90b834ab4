/** `check-feature-matrix.py`: the rule that splits the feature combinations into CI's groups. */
module FeatureMatrix {
  import opened Results
  import opened LoadBalancing
  import opened Sorting

  const SUITE_WEIGHT := 8

  /** A line of the combination list: a feature set, and the tests to run on top of linting it. */
  datatype Combo = Combo(features: string, tests: seq<string>, suite: bool, needs: seq<string>, lib: bool) {
    /** The capabilities asked of a pool: the listed tools, and `tests` as soon as any test is to run. */
    function Requires(): set<string> {
      (set tool | tool in needs) + if tests != [] || suite || lib then {"tests"} else {}
    }

    function Weight(): (w: nat)
      ensures w >= 1
    {
      1 + |tests| + (if lib then 1 else 0) + if suite then SUITE_WEIGHT else 0
    }
  }

  /** A pool's name and its capabilities. */
  type Pools = map<string, set<string>>

  /** The sort key `(-weight, features)`. */
  predicate Precedes(a: Combo, b: Combo) {
    a.Weight() > b.Weight() || (a.Weight() == b.Weight() && Before(a.features, b.features))
  }

  function Weights(cs: seq<Combo>): (ws: seq<nat>)
    ensures |ws| == |cs| && forall i :: 0 <= i < |cs| ==> ws[i] == cs[i].Weight()
  {
    seq(|cs|, i requires 0 <= i < |cs| => cs[i].Weight())
  }

  predicate CanRun(groupsPools: seq<string>, pools: Pools, c: Combo, k: nat)
    requires k < |groupsPools| && forall p :: p in groupsPools ==> p in pools
  {
    c.Requires() <= pools[groupsPools[k]]
  }

  /** The groups, among the first `n`, whose pool has what the combination requires. */
  function Able(groupsPools: seq<string>, pools: Pools, c: Combo, n: nat): (able: seq<nat>)
    requires n <= |groupsPools| && forall p :: p in groupsPools ==> p in pools
    ensures forall j :: 0 <= j < |able| ==> able[j] < n
    ensures forall k: nat :: k in able <==> k < n && CanRun(groupsPools, pools, c, k)
  {
    if n == 0 then []
    else Able(groupsPools, pools, c, n - 1) + if CanRun(groupsPools, pools, c, n - 1) then [n - 1] else []
  }

  /** The least loaded of these groups, the lowest index on a tie. */
  function Pick(loads: seq<nat>, able: seq<nat>): (i: nat)
    requires able != [] && forall j :: 0 <= j < |able| ==> able[j] < |loads|
    ensures i in able && i < |loads|
    ensures forall k :: k in able ==> k < |loads| && (loads[i] < loads[k] || (loads[i] == loads[k] && i <= k))
  {
    if |able| == 1 then able[0]
    else
      var rest := Pick(loads, able[1..]);
      var first := able[0];
      assert forall k :: k in able ==> k == first || k in able[1..];
      if loads[first] < loads[rest] || (loads[first] == loads[rest] && first <= rest) then first else rest
  }

  function Loads(cs: seq<Combo>, on: seq<nat>, m: nat): (loads: seq<nat>)
    requires |on| == |cs|
    ensures |loads| == m && forall k :: 0 <= k < m ==> loads[k] == Load(Weights(cs), on, k)
  {
    seq(m, k requires 0 <= k < m => Load(Weights(cs), on, k))
  }

  /** Which group each combination of a list goes to, in order. */
  function Placement(groupsPools: seq<string>, pools: Pools, cs: seq<Combo>): (r: Result<seq<nat>>)
    requires forall p :: p in groupsPools ==> p in pools
    ensures r.Ok? ==> Assigns(r.value, |cs|, |groupsPools|)
  {
    if cs == [] then Ok([])
    else
      var n := |cs| - 1;
      var on :- Placement(groupsPools, pools, cs[..n]);
      var able := Able(groupsPools, pools, cs[n], |groupsPools|);
      if able == [] then Refused else Ok(on + [Pick(Loads(cs[..n], on, |groupsPools|), able)])
  }

  /** The combinations placed in group `k`, in order. */
  function Group(cs: seq<Combo>, on: seq<nat>, k: nat): seq<Combo>
    requires |on| == |cs|
  {
    if cs == [] then [] else Group(cs[..|cs| - 1], on[..|cs| - 1], k) + if on[|cs| - 1] == k then [cs[|cs| - 1]] else []
  }

  function Groups(cs: seq<Combo>, on: seq<nat>, m: nat): (groups: seq<seq<Combo>>)
    requires |on| == |cs|
    ensures |groups| == m && forall k :: 0 <= k < m ==> groups[k] == Group(cs, on, k)
  {
    seq(m, k requires 0 <= k < m => Group(cs, on, k))
  }

  /** `partition`: heaviest first, each combination to the least loaded group that can run it; a
      combination nothing can run, and a group left with nothing, are refused. */
  function Partition(items: seq<Combo>, groupsPools: seq<string>, pools: Pools): (r: Result<seq<seq<Combo>>>) {
    if groupsPools == [] || exists p :: p in groupsPools && p !in pools then Refused
    else
      var cs := Sort(Precedes, items);
      var on :- Placement(groupsPools, pools, cs);
      var groups := Groups(cs, on, |groupsPools|);
      if [] in groups then Refused else Ok(groups)
  }

  // ---------------------------------------------------------------- the loop

  lemma PlacementStep(groupsPools: seq<string>, pools: Pools, cs: seq<Combo>, j: nat)
    requires forall p :: p in groupsPools ==> p in pools
    requires j < |cs| && Placement(groupsPools, pools, cs[..j]).Ok?
    ensures var on := Placement(groupsPools, pools, cs[..j]).value;
            var able := Able(groupsPools, pools, cs[j], |groupsPools|);
            Placement(groupsPools, pools, cs[..j + 1]) ==
            if able == [] then Refused else Ok(on + [Pick(Loads(cs[..j], on, |groupsPools|), able)])
  {
    assert cs[..j + 1][..j] == cs[..j];
  }

  /** A prefix that cannot be placed is never placed. */
  lemma {:induction false} PlacementRefused(groupsPools: seq<string>, pools: Pools, cs: seq<Combo>, n: nat)
    requires forall p :: p in groupsPools ==> p in pools
    requires n <= |cs| && Placement(groupsPools, pools, cs[..n]).Refused?
    ensures Placement(groupsPools, pools, cs).Refused?
  {
    if n == |cs| {
      assert cs[..n] == cs;
    } else {
      assert cs[..|cs| - 1][..n] == cs[..n];
      PlacementRefused(groupsPools, pools, cs[..|cs| - 1], n);
    }
  }

  lemma GroupStep(cs: seq<Combo>, on: seq<nat>, c: Combo, i: nat, k: nat)
    requires |on| == |cs|
    ensures Group(cs + [c], on + [i], k) == Group(cs, on, k) + if i == k then [c] else []
    ensures Load(Weights(cs + [c]), on + [i], k) == Load(Weights(cs), on, k) + if i == k then c.Weight() else 0
  {
    assert (cs + [c])[..|cs|] == cs && (on + [i])[..|cs|] == on;
    assert Weights(cs + [c])[..|cs|] == Weights(cs);
  }

  /** Placing one more combination appends to one group and adds to one load. */
  lemma GroupsStep(cs: seq<Combo>, on: seq<nat>, c: Combo, i: nat, m: nat)
    requires |on| == |cs| && i < m
    ensures Groups(cs + [c], on + [i], m) == Groups(cs, on, m)[i := Group(cs, on, i) + [c]]
    ensures Loads(cs + [c], on + [i], m) == Loads(cs, on, m)[i := Load(Weights(cs), on, i) + c.Weight()]
  {
    hide Group, Load, Weights;
    forall k: nat | k < m
      ensures Groups(cs + [c], on + [i], m)[k] == Groups(cs, on, m)[i := Group(cs, on, i) + [c]][k]
      ensures Loads(cs + [c], on + [i], m)[k] == Loads(cs, on, m)[i := Load(Weights(cs), on, i) + c.Weight()][k]
    {
      GroupStep(cs, on, c, i, k);
    }
  }

  /** The loop of `partition`, with its two running lists. */
  method PartitionLoop(items: seq<Combo>, groupsPools: seq<string>, pools: Pools) returns (r: Result<seq<seq<Combo>>>)
    ensures r == Partition(items, groupsPools, pools)
  {
    hide Placement, Pick, Able, Group, Groups, Loads, Load, Sort;
    if |groupsPools| < 1 {
      return Refused;
    }
    if exists p :: p in groupsPools && p !in pools {
      return Refused;
    }
    var m := |groupsPools|;
    var cs := Sort(Precedes, items);
    var groups: seq<seq<Combo>> := seq(m, _ => []);
    var load: seq<nat> := seq(m, _ => 0);
    ghost var on: seq<nat> := [];
    NothingPlaced(groupsPools, pools, m);
    assert cs[..0] == [];
    for j := 0 to |cs|
      invariant Placement(groupsPools, pools, cs[..j]) == Ok(on)
      invariant groups == Groups(cs[..j], on, m)
      invariant load == Loads(cs[..j], on, m)
    {
      var able := Able(groupsPools, pools, cs[j], m);
      PlacementStep(groupsPools, pools, cs, j);
      if able == [] {
        PlacementRefused(groupsPools, pools, cs, j + 1);
        return Refused;
      }
      var i := Pick(load, able);
      GroupsStep(cs[..j], on, cs[j], i, m);
      assert cs[..j + 1] == cs[..j] + [cs[j]];
      groups := groups[i := groups[i] + [cs[j]]];
      load := load[i := load[i] + cs[j].Weight()];
      on := on + [i];
    }
    assert cs[..|cs|] == cs;
    if [] in groups {
      return Refused;
    }
    return Ok(groups);
  }

  lemma NothingPlaced(groupsPools: seq<string>, pools: Pools, m: nat)
    requires forall p :: p in groupsPools ==> p in pools
    ensures Placement(groupsPools, pools, []) == Ok([])
    ensures Groups([], [], m) == seq(m, _ => [])
    ensures Loads([], [], m) == seq(m, _ => 0)
  {
  }
}

/** Greedy load balancing: jobs go one by one to a machine with the least load so far. The bounds
    are Graham's, for a list in any order and for a list with the heaviest jobs first. */
module LoadBalancing {

  /** Job `j` runs on machine `on[j]`, one of `m`. */
  ghost predicate Assigns(on: seq<nat>, jobs: nat, m: nat) {
    |on| == jobs && forall j :: 0 <= j < jobs ==> on[j] < m
  }

  function Sum(ws: seq<nat>): nat {
    if ws == [] then 0 else Sum(ws[..|ws| - 1]) + ws[|ws| - 1]
  }

  /** The load of machine `k`. */
  function Load(ws: seq<nat>, on: seq<nat>, k: nat): nat
    requires |on| == |ws|
  {
    if ws == [] then 0
    else Load(ws[..|ws| - 1], on[..|ws| - 1], k) + if on[|ws| - 1] == k then ws[|ws| - 1] else 0
  }

  /** The load of the first `m` machines together. */
  function TotalLoad(ws: seq<nat>, on: seq<nat>, m: nat): nat
    requires |on| == |ws|
  {
    if m == 0 then 0 else TotalLoad(ws, on, m - 1) + Load(ws, on, m - 1)
  }

  ghost predicate Fits(ws: seq<nat>, on: seq<nat>, m: nat, limit: nat)
    requires |on| == |ws|
  {
    forall k: nat :: k < m ==> Load(ws, on, k) <= limit
  }

  // ---------------------------------------------------------------- conservation

  lemma {:induction false} TotalLoadStep(ws: seq<nat>, on: seq<nat>, m: nat)
    requires |on| == |ws| > 0
    ensures TotalLoad(ws, on, m) ==
            TotalLoad(ws[..|ws| - 1], on[..|ws| - 1], m) + if on[|ws| - 1] < m then ws[|ws| - 1] else 0
  {
    if m > 0 {
      TotalLoadStep(ws, on, m - 1);
    }
  }

  lemma {:induction false} TotalLoadOfNothing(m: nat)
    ensures TotalLoad([], [], m) == 0
  {
    if m > 0 {
      TotalLoadOfNothing(m - 1);
    }
  }

  /** No work is lost: the machines' loads add up to the jobs' weights. */
  lemma {:induction false} LoadsAddUp(ws: seq<nat>, on: seq<nat>, m: nat)
    requires Assigns(on, |ws|, m)
    ensures TotalLoad(ws, on, m) == Sum(ws)
  {
    if ws == [] {
      TotalLoadOfNothing(m);
    } else {
      TotalLoadStep(ws, on, m);
      LoadsAddUp(ws[..|ws| - 1], on[..|ws| - 1], m);
    }
  }

  lemma {:induction false} TotalAtLeast(ws: seq<nat>, on: seq<nat>, m: nat, low: nat)
    requires |on| == |ws| && forall k: nat :: k < m ==> Load(ws, on, k) >= low
    ensures TotalLoad(ws, on, m) >= m * low
  {
    if m > 0 {
      TotalAtLeast(ws, on, m - 1, low);
      assert m * low == (m - 1) * low + low;
    }
  }

  lemma {:induction false} TotalAtMost(ws: seq<nat>, on: seq<nat>, m: nat, limit: nat)
    requires |on| == |ws| && Fits(ws, on, m, limit)
    ensures TotalLoad(ws, on, m) <= m * limit
  {
    if m > 0 {
      TotalAtMost(ws, on, m - 1, limit);
      assert m * limit == (m - 1) * limit + limit;
    }
  }

  lemma {:induction false} PrefixLoad(ws: seq<nat>, on: seq<nat>, n: nat, k: nat)
    requires n <= |ws| == |on|
    ensures Load(ws[..n], on[..n], k) <= Load(ws, on, k)
    ensures (forall j :: n <= j < |ws| ==> on[j] != k) ==> Load(ws[..n], on[..n], k) == Load(ws, on, k)
  {
    if n == |ws| {
      assert ws[..n] == ws && on[..n] == on;
    } else {
      var last := |ws| - 1;
      PrefixLoad(ws[..last], on[..last], n, k);
      assert ws[..last][..n] == ws[..n] && on[..last][..n] == on[..n];
    }
  }

  lemma {:induction false} PrefixSum(ws: seq<nat>, n: nat)
    requires n <= |ws|
    ensures Sum(ws[..n]) <= Sum(ws)
  {
    if n == |ws| {
      assert ws[..n] == ws;
    } else {
      PrefixSum(ws[..|ws| - 1], n);
      assert ws[..|ws| - 1][..n] == ws[..n];
    }
  }

  lemma SumOfPrefix(ws: seq<nat>, j: nat)
    requires j < |ws|
    ensures Sum(ws[..j + 1]) == Sum(ws[..j]) + ws[j]
  {
    assert ws[..j + 1][..j] == ws[..j];
  }

  lemma LoadOfPrefix(ws: seq<nat>, on: seq<nat>, j: nat, k: nat)
    requires j < |ws| == |on|
    ensures Load(ws[..j + 1], on[..j + 1], k) == Load(ws[..j], on[..j], k) + if on[j] == k then ws[j] else 0
  {
    assert ws[..j + 1][..j] == ws[..j];
    assert on[..j + 1][..j] == on[..j];
  }

  lemma OneMoreJob(ws: seq<nat>, on: seq<nat>, w: nat, i: nat, k: nat)
    requires |on| == |ws|
    ensures Load(ws + [w], on + [i], k) == Load(ws, on, k) + if i == k then w else 0
  {
    assert (ws + [w])[..|ws|] == ws && (on + [i])[..|ws|] == on;
  }

  lemma SumOfAppend(ws: seq<nat>, w: nat)
    ensures Sum(ws + [w]) == Sum(ws) + w
  {
    assert (ws + [w])[..|ws|] == ws;
  }

  /** As many jobs of weight one. */
  function Ones(n: nat): (ones: seq<nat>)
    ensures |ones| == n && forall i :: 0 <= i < n ==> ones[i] == 1
  {
    seq(n, _ => 1)
  }

  lemma {:induction false} SumOfOnes(n: nat)
    ensures Sum(Ones(n)) == n
  {
    if n > 0 {
      SumOfOnes(n - 1);
      assert Ones(n)[..n - 1] == Ones(n - 1);
    }
  }

  // ---------------------------------------------------------------- the greedy rule

  /** No machine had less load than the one job `j` went to. */
  ghost predicate LeastLoaded(ws: seq<nat>, on: seq<nat>, m: nat, j: nat)
    requires j < |ws| == |on|
  {
    forall k: nat :: k < m ==> Load(ws[..j], on[..j], on[j]) <= Load(ws[..j], on[..j], k)
  }

  ghost predicate Greedy(ws: seq<nat>, on: seq<nat>, m: nat)
    requires |on| == |ws|
  {
    forall j: nat :: j < |ws| ==> LeastLoaded(ws, on, m, j)
  }

  lemma GreedyStep(ws: seq<nat>, at: seq<nat>, i: nat, m: nat)
    requires |ws| == |at| + 1 && Greedy(ws[..|at|], at, m)
    requires forall k: nat :: k < m ==> Load(ws[..|at|], at, i) <= Load(ws[..|at|], at, k)
    ensures Greedy(ws, at + [i], m)
  {
    hide Load;
    var on := at + [i];
    forall j: nat | j < |ws|
      ensures LeastLoaded(ws, on, m, j)
    {
      assert ws[..|at|][..j] == ws[..j] && on[..j] == at[..j];
      if j < |at| {
        assert LeastLoaded(ws[..|at|], at, m, j);
      }
    }
  }

  lemma GreedyPrefix(ws: seq<nat>, on: seq<nat>, m: nat, n: nat)
    requires |on| == |ws| && n <= |ws| && Greedy(ws, on, m)
    ensures Greedy(ws[..n], on[..n], m)
  {
    hide Load;
    forall j: nat | j < n
      ensures LeastLoaded(ws[..n], on[..n], m, j)
    {
      assert LeastLoaded(ws, on, m, j);
      assert ws[..n][..j] == ws[..j] && on[..n][..j] == on[..j];
    }
  }

  /** Job `j` is the last one machine `k` was given. */
  ghost predicate LastOn(on: seq<nat>, j: nat, k: nat) {
    j < |on| && on[j] == k && forall i :: j < i < |on| ==> on[i] != k
  }

  lemma {:induction false} BusyMachineHasLastJob(ws: seq<nat>, on: seq<nat>, k: nat) returns (j: nat)
    requires |on| == |ws| && Load(ws, on, k) > 0
    ensures LastOn(on, j, k)
  {
    var n := |ws| - 1;
    if on[n] == k {
      j := n;
    } else {
      j := BusyMachineHasLastJob(ws[..n], on[..n], k);
    }
  }

  lemma LoadOfLastOn(ws: seq<nat>, on: seq<nat>, j: nat, k: nat)
    requires |on| == |ws| && LastOn(on, j, k)
    ensures Load(ws, on, k) == Load(ws[..j], on[..j], k) + ws[j]
  {
    PrefixLoad(ws, on, j + 1, k);
    LoadOfPrefix(ws, on, j, k);
  }

  /** List scheduling: `m` times a machine's load is at most all the work plus `m - 1` times the last
      job it was given. */
  lemma ListBound(ws: seq<nat>, on: seq<nat>, m: nat, j: nat, k: nat)
    requires Assigns(on, |ws|, m) && Greedy(ws, on, m) && LastOn(on, j, k)
    ensures m * Load(ws, on, k) <= Sum(ws) + (m - 1) * ws[j]
  {
    hide Load, Sum;
    var before := Load(ws[..j], on[..j], k);
    assert LeastLoaded(ws, on, m, j);
    TotalAtLeast(ws[..j], on[..j], m, before);
    LoadsAddUp(ws[..j], on[..j], m);
    LoadOfLastOn(ws, on, j, k);
    SumOfPrefix(ws, j);
    PrefixSum(ws, j + 1);
    ListArithmetic(m, before, ws[j]);
  }

  lemma ListArithmetic(m: nat, before: nat, w: nat)
    ensures m * (before + w) == m * before + (m - 1) * w + w
  {
    assert m * (before + w) == m * before + m * w;
  }

  // ---------------------------------------------------------------- large jobs

  /** How much of a machine a job takes up when every job is over a third of `limit`: all of it if
      nothing of weight `w` fits beside it, else half. */
  function Halves(ws: seq<nat>, limit: nat, w: nat): (hs: seq<nat>)
    ensures |hs| == |ws|
    ensures forall j :: 0 <= j < |ws| ==> hs[j] == if ws[j] + w > limit then 2 else 1
  {
    seq(|ws|, j requires 0 <= j < |ws| => if ws[j] + w > limit then 2 else 1)
  }

  lemma HalvesOfPrefix(ws: seq<nat>, limit: nat, w: nat, n: nat)
    requires n <= |ws|
    ensures Halves(ws, limit, w)[..n] == Halves(ws[..n], limit, w)
  {
  }

  /** A machine within the limit is not taken up more than once. */
  lemma {:induction false} FittingTakesOne(ws: seq<nat>, on: seq<nat>, k: nat, limit: nat, w: nat)
    requires |on| == |ws| && 3 * w > limit && forall j :: 0 <= j < |ws| ==> ws[j] >= w
    ensures var taken := Load(Halves(ws, limit, w), on, k);
            && (taken >= 1 ==> Load(ws, on, k) >= w)
            && (taken >= 2 ==> Load(ws, on, k) + w > limit)
            && (taken >= 3 ==> Load(ws, on, k) > limit)
  {
    hide Halves;
    if ws != [] {
      var n := |ws| - 1;
      FittingTakesOne(ws[..n], on[..n], k, limit, w);
      HalvesOfPrefix(ws, limit, w, n);
    }
  }

  /** A machine that has no room for `w` is taken up wholly. */
  lemma {:induction false} FullIsTaken(ws: seq<nat>, on: seq<nat>, k: nat, limit: nat, w: nat)
    requires |on| == |ws| && w <= limit
    ensures var taken := Load(Halves(ws, limit, w), on, k);
            && (taken == 0 ==> Load(ws, on, k) == 0)
            && (taken == 1 ==> Load(ws, on, k) + w <= limit)
  {
    hide Halves;
    if ws != [] {
      var n := |ws| - 1;
      FullIsTaken(ws[..n], on[..n], k, limit, w);
      HalvesOfPrefix(ws, limit, w, n);
    }
  }

  /** With every job over a third of `limit`, greedy placement never passes `limit` if any placement
      of the same jobs stays within it. */
  lemma LargeJobsFit(ws: seq<nat>, on: seq<nat>, other: seq<nat>, m: nat, limit: nat)
    requires Assigns(on, |ws|, m) && Assigns(other, |ws|, m) && ws != []
    requires 3 * ws[|ws| - 1] > limit && forall j :: 0 <= j < |ws| ==> ws[j] >= ws[|ws| - 1]
    requires LeastLoaded(ws, on, m, |ws| - 1) && Fits(ws, other, m, limit)
    ensures Load(ws, on, on[|ws| - 1]) <= limit
  {
    hide Halves;
    var n := |ws| - 1;
    var w, k := ws[n], on[n];
    if Load(ws, on, k) > limit {
      var hs := Halves(ws, limit, w);
      assert Load(ws, other, other[n]) >= w;
      forall i: nat | i < m
        ensures Load(hs, other, i) <= 2
      {
        FittingTakesOne(ws, other, i, limit, w);
      }
      TotalAtMost(hs, other, m, 2);
      LoadsAddUp(hs, other, m);
      HalvesOfPrefix(ws, limit, w, n);
      forall i: nat | i < m
        ensures Load(hs[..n], on[..n], i) >= 2
      {
        FullIsTaken(ws[..n], on[..n], i, limit, w);
      }
      TotalAtLeast(hs[..n], on[..n], m, 2);
      LoadsAddUp(hs[..n], on[..n], m);
    }
  }

  ghost predicate HeaviestFirst(ws: seq<nat>) {
    forall i, j :: 0 <= i <= j < |ws| ==> ws[i] >= ws[j]
  }

  /** Graham's bound for the greedy rule with the heaviest jobs first: against any placement whose
      loads stay within `limit`, no load passes `(4/3 - 1/(3m)) * limit`. */
  lemma HeaviestFirstBound(ws: seq<nat>, on: seq<nat>, other: seq<nat>, m: nat, limit: nat, k: nat)
    requires Assigns(on, |ws|, m) && Assigns(other, |ws|, m) && m >= 1
    requires Greedy(ws, on, m) && HeaviestFirst(ws) && Fits(ws, other, m, limit) && k < m
    ensures 3 * m * Load(ws, on, k) <= (4 * m - 1) * limit
  {
    hide Load, Sum;
    if Load(ws, on, k) > 0 {
      var j := BusyMachineHasLastJob(ws, on, k);
      var w, load := ws[j], Load(ws, on, k);
      if 3 * w > limit {
        LargeLastJob(ws, on, other, m, limit, j, k);
        GrahamArithmetic(m, load, limit, 0);
      } else {
        ListBound(ws, on, m, j, k);
        LoadsAddUp(ws, other, m);
        TotalAtMost(ws, other, m, limit);
        GrahamArithmetic(m, load, limit, w);
      }
    } else {
      assert 3 * m * 0 == 0 <= (4 * m - 1) * limit;
    }
  }

  lemma LargeLastJob(ws: seq<nat>, on: seq<nat>, other: seq<nat>, m: nat, limit: nat, j: nat, k: nat)
    requires Assigns(on, |ws|, m) && Assigns(other, |ws|, m)
    requires Greedy(ws, on, m) && HeaviestFirst(ws) && Fits(ws, other, m, limit) && LastOn(on, j, k) &&
             3 * ws[j] > limit
    ensures Load(ws, on, k) <= limit
  {
    hide Load;
    var us, at, there := ws[..j + 1], on[..j + 1], other[..j + 1];
    forall i: nat | i < m
      ensures Load(us, there, i) <= limit
    {
      PrefixLoad(ws, other, j + 1, i);
    }
    assert LeastLoaded(ws, on, m, j);
    assert us[..j] == ws[..j] && at[..j] == on[..j];
    LargeJobsFit(us, at, there, m, limit);
    PrefixLoad(ws, on, j + 1, k);
  }

  lemma GrahamArithmetic(m: nat, load: nat, limit: nat, w: nat)
    requires m >= 1 && 3 * w <= limit && m * load <= m * limit + (m - 1) * w
    ensures 3 * m * load <= (4 * m - 1) * limit
  {
    assert (m - 1) * (3 * w) <= (m - 1) * limit;
    assert 3 * (m * load) <= 3 * (m * limit) + (m - 1) * (3 * w);
    assert 3 * (m * limit) + (m - 1) * limit == (4 * m - 1) * limit;
  }
}

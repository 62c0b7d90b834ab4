/** `publish-crates.py`, `publishable`: an upload order for the workspace, path dependencies first. */
module PublishOrder {
  import opened Results

  /** What a member's manifest says: whether it is published, and what it depends on by path. */
  datatype Member = Member(name: string, version: string, publish: bool, dependencies: seq<string>)

  datatype Package = Package(version: string, dependencies: seq<string>)

  type Packages = map<string, Package>

  /** The published members by name; a later manifest of the same name replaces an earlier one. */
  function Found(members: seq<Member>): Packages {
    if members == [] then map[]
    else
      var m := members[|members| - 1];
      var found := Found(members[..|members| - 1]);
      if m.publish then found[m.name := Package(m.version, m.dependencies)] else found
  }

  /** The names in the order they were first found. */
  function FoundNames(members: seq<Member>): seq<string> {
    if members == [] then []
    else
      var m := members[|members| - 1];
      var names := FoundNames(members[..|members| - 1]);
      if m.publish && m.name !in names then names + [m.name] else names
  }

  lemma {:induction false} NamesAreKeys(members: seq<Member>)
    ensures forall n :: n in FoundNames(members) <==> n in Found(members)
  {
    if members != [] {
      NamesAreKeys(members[..|members| - 1]);
    }
  }

  /** Package `a` has to wait for package `b`. */
  predicate Needs(found: Packages, a: string, b: string) {
    a in found && b in found && b in found[a].dependencies
  }

  /** A walk along the dependencies. */
  ghost predicate Chain(found: Packages, path: seq<string>) {
    forall i, j :: 0 <= i < |path| && j == i + 1 && j < |path| ==> Needs(found, path[i], path[j])
  }

  ghost predicate Cycle(found: Packages, path: seq<string>) {
    |path| >= 2 && Chain(found, path) && path[0] == path[|path| - 1]
  }

  ghost predicate Cyclic(found: Packages) {
    exists path :: Cycle(found, path)
  }

  /** Each name once, and after every name it needs. */
  ghost predicate Ordered(found: Packages, names: seq<string>) {
    && (forall i :: 0 <= i < |names| ==> names[i] in found)
    && (forall i, j :: 0 <= i < j < |names| ==> names[i] != names[j])
    && (forall i, b :: 0 <= i < |names| && Needs(found, names[i], b) ==> b in names[..i])
  }

  // ---------------------------------------------------------------- the walk

  lemma OrderedAppend(found: Packages, names: seq<string>, name: string)
    requires Ordered(found, names) && name in found && name !in names
    requires forall b :: Needs(found, name, b) ==> b in names
    ensures Ordered(found, names + [name])
  {
    hide Needs;
    var longer := names + [name];
    forall i, b | 0 <= i < |longer| && Needs(found, longer[i], b)
      ensures b in longer[..i]
    {
      assert longer[..i] == if i < |names| then names[..i] else names;
    }
  }

  lemma ChainAppend(found: Packages, path: seq<string>, name: string)
    requires Chain(found, path) && (path == [] || Needs(found, path[|path| - 1], name))
    ensures Chain(found, path + [name])
  {
  }

  /** Coming back to a name on the trail closes a cycle. */
  lemma TrailCloses(found: Packages, trail: seq<string>, name: string)
    requires Chain(found, trail) && trail != [] && Needs(found, trail[|trail| - 1], name) && name in trail
    ensures Cyclic(found)
  {
    var i :| 0 <= i < |trail| && trail[i] == name;
    var path := trail[i..] + [name];
    ChainAppend(found, trail, name);
    assert path == (trail + [name])[i..];
    assert Cycle(found, path);
  }

  class Sorter {
    const found: Packages
    var ordered: seq<string>
    var visiting: set<string>

    constructor (found: Packages)
      ensures this.found == found && ordered == [] && visiting == {}
    {
      this.found := found;
      ordered := [];
      visiting := {};
    }

    /** The names being visited are the trail that led here; none of them is placed yet. */
    ghost predicate Valid(trail: seq<string>)
      reads this
    {
      && Ordered(found, ordered)
      && Chain(found, trail)
      && visiting == (set n | n in trail)
      && visiting <= found.Keys
      && (forall n :: n in visiting ==> n !in ordered)
    }

    /** `visit`: false stands for the exception raised on a cycle. */
    method Visit(name: string, ghost trail: seq<string>) returns (ok: bool)
      requires Valid(trail) && name in found
      requires trail == [] || Needs(found, trail[|trail| - 1], name)
      modifies this
      ensures ok ==> Valid(trail) && old(ordered) <= ordered && name in ordered
      ensures !ok ==> Cyclic(found)
      decreases found.Keys - visiting
    {
      if name in ordered {
        return true;
      }
      if name in visiting {
        TrailCloses(found, trail, name);
        return false;
      }
      visiting := visiting + {name};
      ghost var longer := trail + [name];
      ChainAppend(found, trail, name);
      var dependencies := found[name].dependencies;
      ghost var before := old(ordered);
      for i := 0 to |dependencies|
        invariant Valid(longer) && before <= ordered
        invariant forall j :: 0 <= j < i && dependencies[j] in found ==> dependencies[j] in ordered
      {
        var dependency := dependencies[i];
        if dependency in found {
          assert Needs(found, longer[|longer| - 1], dependency);
          assert name in visiting;
          ok := Visit(dependency, longer);
          if !ok {
            return;
          }
        }
      }
      visiting := visiting - {name};
      assert name in longer;
      OrderedAppend(found, ordered, name);
      ordered := ordered + [name];
      ok := true;
      assert visiting == set n | n in trail;
    }
  }

  datatype Crate = Crate(name: string, version: string)

  function CrateOf(found: Packages, name: string): Crate
    requires name in found
  {
    Crate(name, found[name].version)
  }

  function Crates(found: Packages, names: seq<string>): (crates: seq<Crate>)
    requires forall i :: 0 <= i < |names| ==> names[i] in found
    ensures |crates| == |names| && forall i :: 0 <= i < |names| ==> crates[i] == CrateOf(found, names[i])
  {
    seq(|names|, i requires 0 <= i < |names| => CrateOf(found, names[i]))
  }

  /** An order in which nothing is left out. */
  ghost predicate CompleteOrder(found: Packages, names: seq<string>) {
    Ordered(found, names) && forall n :: n in found ==> n in names
  }

  /** `publishable`: every published member once, each after what it depends on, or a refusal, which
      always means that the dependencies form a cycle. */
  method Publishable(members: seq<Member>) returns (r: Result<seq<string>>)
    ensures r.Ok? ==> CompleteOrder(Found(members), r.value)
    ensures r.Refused? <==> Cyclic(Found(members))
  {
    var found, names := Found(members), FoundNames(members);
    NamesAreKeys(members);
    var sorter := new Sorter(found);
    for i := 0 to |names|
      invariant sorter.found == found && sorter.Valid([])
      invariant forall j :: 0 <= j < i ==> names[j] in sorter.ordered
    {
      assert names[i] in names;
      var ok := sorter.Visit(names[i], []);
      if !ok {
        return Refused;
      }
    }
    OrderedHasNoCycle(found, sorter.ordered);
    return Ok(sorter.ordered);
  }

  /** Where a name stands in an order. */
  ghost function Place(names: seq<string>, n: string): (i: nat)
    requires n in names
    ensures i < |names| && names[i] == n
  {
    var i :| 0 <= i < |names| && names[i] == n;
    i
  }

  /** Walking along the dependencies leads towards the front. */
  lemma {:induction false} ChainDescends(found: Packages, names: seq<string>, path: seq<string>, i: nat)
    requires CompleteOrder(found, names) && Chain(found, path) && 1 <= i < |path|
    ensures path[0] in names && path[i] in names && Place(names, path[i]) < Place(names, path[0])
  {
    assert Needs(found, path[i - 1], path[i]);
    if i > 1 {
      ChainDescends(found, names, path, i - 1);
    }
    var from := Place(names, path[i - 1]);
    assert path[i] in names[..from];
    var k :| 0 <= k < from && names[k] == path[i];
  }

  lemma OrderedHasNoCycle(found: Packages, names: seq<string>)
    requires CompleteOrder(found, names)
    ensures !Cyclic(found)
  {
    forall path
      ensures !Cycle(found, path)
    {
      if Cycle(found, path) {
        ChainDescends(found, names, path, |path| - 1);
      }
    }
  }

  /** Member `i` is the last published one of its name. */
  predicate IsLast(members: seq<Member>, i: nat) {
    && i < |members| && members[i].publish
    && forall j :: i < j < |members| && members[j].publish ==> members[j].name != members[i].name
  }

  /** The packages are the published members, the last one under each name, with its version and its
      dependencies. */
  lemma {:induction false} FoundIff(members: seq<Member>, name: string, package: Package)
    ensures name in Found(members) && Found(members)[name] == package <==>
            exists i: nat ::
              && IsLast(members, i)
              && members[i].name == name && package == Package(members[i].version, members[i].dependencies)
  {
    if members != [] {
      var n := |members| - 1;
      FoundIff(members[..n], name, package);
      LastOfFront(members, name);
    }
  }

  lemma LastOfFront(members: seq<Member>, name: string)
    requires members != []
    ensures var n := |members| - 1;
            && IsLast(members, n) == members[n].publish
            && forall i: nat :: i < n && members[i].name == name ==>
                 (IsLast(members, i) <==> IsLast(members[..n], i) && !(members[n].publish && members[n].name == name))
  {
  }
}

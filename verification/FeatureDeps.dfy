/** `check-feature-deps.py`, `deps_of`: the crates a feature pulls in, found by a depth-first walk with
    one shared set of visited features. */
module FeatureDeps {
  import opened Text

  /** The `[features]` table: each feature and its entries, verbatim. */
  type Features = map<string, seq<string>>

  const DEP := "dep:"

  function Entries(feats: Features, f: string): seq<string> {
    if f in feats then feats[f] else []
  }

  /** The feature an entry names, if it names one. */
  predicate IsLink(feats: Features, entry: string) {
    !StartsWith(entry, DEP) && entry in feats
  }

  /** Feature `g` is listed among the entries of feature `f`. */
  predicate Links(feats: Features, f: string, g: string) {
    g in Entries(feats, f) && IsLink(feats, g)
  }

  /** The crates these entries declare. */
  function Crates(entries: seq<string>): set<string> {
    set e | e in entries && StartsWith(e, DEP) :: e[4..]
  }

  /** The crates a set of features declares. */
  function Declared(feats: Features, fs: set<string>): set<string> {
    set f, c | f in fs && c in Crates(Entries(feats, f)) :: c
  }

  /** A crate is declared by an entry with its name behind `dep:`. */
  lemma CrateIff(entries: seq<string>, crate: string)
    ensures crate in Crates(entries) <==> "dep:" + crate in entries
  {
    var entry := "dep:" + crate;
    assert entry[..4] == DEP && entry[4..] == crate;
    forall e | e in entries && StartsWith(e, DEP) && e[4..] == crate
      ensures e == entry
    {
      assert e == e[..4] + e[4..];
    }
  }

  /** A feature pulls in the features of the table that it lists, except by a name that starts `dep:`. */
  lemma LinkIff(feats: Features, f: string, g: string)
    ensures Links(feats, f, g) <==> f in feats && g in feats[f] && g in feats && !exists crate :: g == "dep:" + crate
  {
    if StartsWith(g, DEP) {
      assert g == "dep:" + g[4..];
    }
    forall crate | g == "dep:" + crate
      ensures StartsWith(g, DEP)
    {
      assert g[..4] == DEP;
    }
  }

  // ---------------------------------------------------------------- reachability

  ghost predicate IsPath(feats: Features, path: seq<string>) {
    path != [] && forall i :: 0 <= i < |path| - 1 ==> Links(feats, path[i], path[i + 1])
  }

  ghost predicate PathFromTo(feats: Features, path: seq<string>, f: string, g: string) {
    IsPath(feats, path) && path[0] == f && path[|path| - 1] == g
  }

  /** Feature `f` pulls in feature `g`, directly or not; every feature pulls in itself. */
  ghost predicate Reaches(feats: Features, f: string, g: string) {
    exists path :: PathFromTo(feats, path, f, g)
  }

  /** Every crate declared by a feature that `feature` reaches, and no other. */
  ghost predicate IsSupply(feats: Features, feature: string, crates: set<string>) {
    forall c :: c in crates <==> exists f :: Reaches(feats, feature, f) && c in Crates(Entries(feats, f))
  }

  lemma ReachesItself(feats: Features, f: string)
    ensures Reaches(feats, f, f)
  {
    assert PathFromTo(feats, [f], f, f);
  }

  lemma ReachesNext(feats: Features, f: string, g: string, h: string)
    requires Links(feats, f, g) && Reaches(feats, g, h)
    ensures Reaches(feats, f, h)
  {
    var path :| PathFromTo(feats, path, g, h);
    var longer := [f] + path;
    assert forall i :: 0 < i < |longer| ==> longer[i] == path[i - 1];
    assert PathFromTo(feats, longer, f, h);
  }

  /** A set that contains where a path starts and all it links to contains where the path ends. */
  lemma {:induction false} ClosedHoldsPath(feats: Features, fs: set<string>, path: seq<string>, i: nat)
    requires IsPath(feats, path) && i < |path| && path[0] in fs
    requires forall f, g :: f in fs && Links(feats, f, g) ==> g in fs
    ensures path[i] in fs
  {
    if i > 0 {
      ClosedHoldsPath(feats, fs, path, i - 1);
      assert Links(feats, path[i - 1], path[i - 1 + 1]);
    }
  }

  // ---------------------------------------------------------------- the walk

  /** These features' links all lead into `seen`. */
  ghost predicate Explored(feats: Features, fs: set<string>, seen: set<string>) {
    forall f, g :: f in fs && Links(feats, f, g) ==> g in seen
  }

  ghost predicate AllReached(feats: Features, feature: string, fs: set<string>) {
    forall f :: f in fs ==> Reaches(feats, feature, f)
  }

  /** What a call does to the visited set: it visits what was not yet seen, explores all of that, and
      returns what the newly visited features declare. */
  ghost predicate Visited(feats: Features, feature: string, before: set<string>, seen: set<string>, out: set<string>) {
    && before + {feature} <= seen
    && Explored(feats, seen - before, seen)
    && AllReached(feats, feature, seen - before)
    && out == Declared(feats, seen - before)
  }

  /** Half way through the entries of `feature`, which is itself in `start` already. */
  ghost predicate Visiting(
    feats: Features, feature: string, i: nat, start: set<string>, seen: set<string>, out: set<string>)
    requires i <= |Entries(feats, feature)|
  {
    var entries := Entries(feats, feature);
    && start <= seen
    && Explored(feats, seen - start, seen)
    && AllReached(feats, feature, seen - start)
    && (forall j :: 0 <= j < i && IsLink(feats, entries[j]) ==> entries[j] in seen)
    && out == Crates(entries[..i]) + Declared(feats, seen - start)
  }

  lemma VisitingCrate(feats: Features, feature: string, i: nat, start: set<string>, seen: set<string>, out: set<string>)
    requires i < |Entries(feats, feature)| && Visiting(feats, feature, i, start, seen, out)
    requires !IsLink(feats, Entries(feats, feature)[i])
    ensures var entry := Entries(feats, feature)[i];
            Visiting(feats, feature, i + 1, start, seen, out + if StartsWith(entry, DEP) then {entry[4..]} else {})
  {
    CratesStep(Entries(feats, feature), i);
  }

  lemma CratesStep(entries: seq<string>, i: nat)
    requires i < |entries|
    ensures Crates(entries[..i + 1]) ==
            Crates(entries[..i]) + if StartsWith(entries[i], DEP) then {entries[i][4..]} else {}
  {
    var longer, entry := Crates(entries[..i + 1]), entries[i];
    assert entries[..i + 1] == entries[..i] + [entry];
    forall c
      ensures c in longer <==> c in Crates(entries[..i]) || (StartsWith(entry, DEP) && c == entry[4..])
    {
      if StartsWith(entry, DEP) && c == entry[4..] {
        assert entry in entries[..i + 1];
      }
    }
  }

  lemma VisitingLink(feats: Features, feature: string, i: nat, start: set<string>, mid: set<string>, seen: set<string>,
                     out: set<string>, more: set<string>)
    requires i < |Entries(feats, feature)| && Visiting(feats, feature, i, start, mid, out)
    requires IsLink(feats, Entries(feats, feature)[i])
    requires Visited(feats, Entries(feats, feature)[i], mid, seen, more)
    ensures Visiting(feats, feature, i + 1, start, seen, out + more)
  {
    hide Crates, Declared, Explored, AllReached, StartsWith;
    var entry := Entries(feats, feature)[i];
    assert Links(feats, feature, entry);
    var was, added := mid - start, seen - mid;
    InTwoSteps(start, mid, seen);
    CratesOfLink(feats, Entries(feats, feature), i);
    DeclaredUnion(feats, was, added);
    ExploredUnion(feats, was, added, mid, seen);
    ReachedUnion(feats, feature, entry, was, added);
  }

  lemma InTwoSteps(start: set<string>, mid: set<string>, seen: set<string>)
    requires start <= mid <= seen
    ensures seen - start == (mid - start) + (seen - mid)
  {
  }

  lemma CratesOfLink(feats: Features, entries: seq<string>, i: nat)
    requires i < |entries| && IsLink(feats, entries[i])
    ensures Crates(entries[..i + 1]) == Crates(entries[..i])
  {
    CratesStep(entries, i);
  }

  lemma ExploredUnion(feats: Features, was: set<string>, added: set<string>, mid: set<string>, seen: set<string>)
    requires Explored(feats, was, mid) && Explored(feats, added, seen) && mid <= seen
    ensures Explored(feats, was + added, seen)
  {
    hide Links;
  }

  lemma ReachedUnion(feats: Features, feature: string, entry: string, was: set<string>, added: set<string>)
    requires Links(feats, feature, entry) && AllReached(feats, feature, was) && AllReached(feats, entry, added)
    ensures AllReached(feats, feature, was + added)
  {
    hide Links, Reaches;
    forall f | f in added
      ensures Reaches(feats, feature, f)
    {
      ReachesNext(feats, feature, entry, f);
    }
  }

  lemma DeclaredUnion(feats: Features, a: set<string>, b: set<string>)
    ensures Declared(feats, a + b) == Declared(feats, a) + Declared(feats, b)
  {
    hide Crates;
  }

  lemma VisitingDone(feats: Features, feature: string, before: set<string>, seen: set<string>, out: set<string>)
    requires feature !in before
    requires Visiting(feats, feature, |Entries(feats, feature)|, before + {feature}, seen, out)
    ensures Visited(feats, feature, before, seen, out)
  {
    var entries, start := Entries(feats, feature), before + {feature};
    assert entries[..|entries|] == entries;
    assert seen - before == (seen - start) + {feature};
    DeclaredUnion(feats, seen - start, {feature});
    assert Declared(feats, {feature}) == Crates(entries) by { hide Crates; }
    ReachesItself(feats, feature);
  }

  class FeatureWalk {
    const feats: Features
    var seen: set<string>

    constructor (feats: Features)
      ensures this.feats == feats && seen == {}
    {
      this.feats := feats;
      seen := {};
    }

    /** `deps_of`, with the visited set it shares between its calls. */
    method DepsOf(feature: string) returns (out: set<string>)
      modifies this
      ensures Visited(feats, feature, old(seen), seen, out)
      decreases feats.Keys - seen
    {
      ghost var before := seen;
      if feature in seen {
        NothingNew(feats, feature, seen);
        return {};
      }
      hide Visiting, Crates;
      seen := seen + {feature};
      out := {};
      var entries := Entries(feats, feature);
      ghost var start := seen;
      VisitingStart(feats, feature, start);
      for i := 0 to |entries|
        invariant start <= seen
        invariant Visiting(feats, feature, i, start, seen, out)
      {
        var entry := entries[i];
        ghost var mid := seen;
        if StartsWith(entry, DEP) {
          VisitingCrate(feats, feature, i, start, seen, out);
          out := out + {entry[4..]};
        } else if entry in feats {
          assert feature in feats.Keys - before && feature !in feats.Keys - seen;
          var more := DepsOf(entry);
          VisitingLink(feats, feature, i, start, mid, seen, out, more);
          out := out + more;
        } else {
          VisitingCrate(feats, feature, i, start, seen, out);
        }
      }
      VisitingDone(feats, feature, before, seen, out);
    }
  }

  lemma NothingNew(feats: Features, feature: string, seen: set<string>)
    requires feature in seen
    ensures Visited(feats, feature, seen, seen, {})
  {
    assert seen - seen == {};
  }

  lemma VisitingStart(feats: Features, feature: string, start: set<string>)
    ensures Visiting(feats, feature, 0, start, start, {})
  {
    assert start - start == {};
    assert Entries(feats, feature)[..0] == [];
  }

  /** A walk that starts with nothing visited finds exactly what the feature supplies. */
  lemma WalkFindsSupply(feats: Features, feature: string, seen: set<string>, out: set<string>)
    requires Visited(feats, feature, {}, seen, out)
    ensures forall f :: f in seen <==> Reaches(feats, feature, f)
    ensures IsSupply(feats, feature, out)
  {
    assert seen - {} == seen;
    forall f | Reaches(feats, feature, f)
      ensures f in seen
    {
      var path :| PathFromTo(feats, path, feature, f);
      ClosedHoldsPath(feats, seen, path, |path| - 1);
    }
  }

  /** `deps_of(feature, feats)`: it ends on every table, cyclic ones included, with exactly the crates
      of the features reachable from its argument. */
  method Supply(feature: string, feats: Features) returns (out: set<string>)
    ensures IsSupply(feats, feature, out)
  {
    var walk := new FeatureWalk(feats);
    out := walk.DepsOf(feature);
    WalkFindsSupply(feats, feature, walk.seen, out);
  }
}

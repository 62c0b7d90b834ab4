/** `publish-crates.py`, `plan` and the upload loop: what a release run does to the registry, which
    nothing can undo. */
module PublishRelease {
  import opened Results
  import opened PublishOrder

  /** What the registry answers about a version. */
  const PUBLISHED := 200
  const NOT_PUBLISHED := 404

  /** `plan`: the crates to upload, or a refusal if any answer is neither 200 nor 404. */
  function Plan(crates: seq<Crate>, status: Crate -> int): (r: Result<seq<Crate>>) {
    if crates == [] then Ok([])
    else
      var n := |crates| - 1;
      var todo := Plan(crates[..n], status);
      if todo.Refused? then Refused
      else if status(crates[n]) == PUBLISHED then todo
      else if status(crates[n]) == NOT_PUBLISHED then Ok(todo.value + [crates[n]])
      else Refused
  }

  /** Every crate is asked about, and any other answer refuses the plan. */
  lemma {:induction false} PlanRefusesIff(crates: seq<Crate>, status: Crate -> int)
    ensures Plan(crates, status).Refused? <==>
            exists i :: 0 <= i < |crates| && status(crates[i]) != PUBLISHED && status(crates[i]) != NOT_PUBLISHED
  {
    if crates != [] {
      var n := |crates| - 1;
      PlanRefusesIff(crates[..n], status);
      assert forall i :: 0 <= i < n ==> crates[..n][i] == crates[i];
    }
  }

  /** The loop of `plan`. */
  method PlanLoop(crates: seq<Crate>, status: Crate -> int) returns (r: Result<seq<Crate>>)
    ensures r == Plan(crates, status)
  {
    var todo: seq<Crate> := [];
    assert crates[..0] == [];
    for i := 0 to |crates|
      invariant Plan(crates[..i], status) == Ok(todo)
    {
      assert crates[..i + 1][..i] == crates[..i];
      var answer := status(crates[i]);
      if answer == NOT_PUBLISHED {
        todo := todo + [crates[i]];
      } else if answer != PUBLISHED {
        PlanRefused(crates, status, i + 1);
        return Refused;
      }
    }
    assert crates[..|crates|] == crates;
    return Ok(todo);
  }

  lemma {:induction false} PlanRefused(crates: seq<Crate>, status: Crate -> int, n: nat)
    requires n <= |crates| && Plan(crates[..n], status).Refused?
    ensures Plan(crates, status).Refused?
  {
    if n == |crates| {
      assert crates[..n] == crates;
    } else {
      assert crates[..|crates| - 1][..n] == crates[..n];
      PlanRefused(crates[..|crates| - 1], status, n);
    }
  }

  /** Everything the crate of this name has to wait for is held. */
  ghost predicate Ready(found: Packages, held: set<Crate>, crate: Crate) {
    forall b :: Needs(found, crate.name, b) ==> CrateOf(found, b) in held
  }

  /** The registry holds every version it says is published. */
  ghost predicate Truthful(status: Crate -> int, held: set<Crate>) {
    forall c :: status(c) == PUBLISHED ==> c in held
  }

  /** Where a planned crate stands in the list, and that the crates to upload before it come before it. */
  lemma {:induction false} PlanKeepsOrder(crates: seq<Crate>, status: Crate -> int, k: nat) returns (i: nat)
    requires Plan(crates, status).Ok? && k < |Plan(crates, status).value|
    ensures i < |crates| && crates[i] == Plan(crates, status).value[k]
    ensures forall j :: 0 <= j < i && status(crates[j]) == NOT_PUBLISHED ==>
            crates[j] in Plan(crates, status).value[..k]
    ensures forall j :: 0 <= j < |crates| ==> status(crates[j]) == PUBLISHED || status(crates[j]) == NOT_PUBLISHED
  {
    PlanRefusesIff(crates, status);
    var n, todo := |crates| - 1, Plan(crates, status).value;
    var shorter := Plan(crates[..n], status).value;
    if k < |shorter| {
      i := PlanKeepsOrder(crates[..n], status, k);
      assert todo[..k] == shorter[..k];
    } else {
      i := n;
      assert todo[..k] == shorter;
      forall j | 0 <= j < n && status(crates[j]) == NOT_PUBLISHED
        ensures crates[j] in shorter
      {
        PlannedIfMissing(crates[..n], status, j);
      }
    }
  }

  lemma {:induction false} PlannedIfMissing(crates: seq<Crate>, status: Crate -> int, j: nat)
    requires Plan(crates, status).Ok? && j < |crates| && status(crates[j]) == NOT_PUBLISHED
    ensures crates[j] in Plan(crates, status).value
  {
    var n := |crates| - 1;
    if j < n {
      PlannedIfMissing(crates[..n], status, j);
    }
  }

  ghost function SetOf(crates: seq<Crate>): set<Crate> {
    set c | c in crates
  }

  /** When its turn comes, everything a planned crate depends on is held, provided every upload before
      it succeeded. */
  lemma PlannedIsReady(found: Packages, names: seq<string>, status: Crate -> int, held: set<Crate>, k: nat)
    requires CompleteOrder(found, names) && Truthful(status, held)
    requires Plan(Crates(found, names), status).Ok? && k < |Plan(Crates(found, names), status).value|
    ensures var todo := Plan(Crates(found, names), status).value;
            Ready(found, held + SetOf(todo[..k]), todo[k])
  {
    hide Needs;
    var crates := Crates(found, names);
    var todo := Plan(crates, status).value;
    var i := PlanKeepsOrder(crates, status, k);
    forall b | Needs(found, todo[k].name, b)
      ensures CrateOf(found, b) in held + SetOf(todo[..k])
    {
      assert Needs(found, names[i], b);
      var j :| 0 <= j < i && names[j] == b;
      assert crates[j] == CrateOf(found, b);
    }
  }

  /** Once every planned crate is uploaded, the registry holds every published member. */
  lemma PlanCompletes(found: Packages, names: seq<string>, status: Crate -> int, held: set<Crate>, n: string)
    requires CompleteOrder(found, names) && Truthful(status, held) && n in found
    requires Plan(Crates(found, names), status).Ok?
    ensures CrateOf(found, n) in held + SetOf(Plan(Crates(found, names), status).value)
  {
    hide Needs;
    var crates := Crates(found, names);
    PlanRefusesIff(crates, status);
    var j :| 0 <= j < |names| && names[j] == n;
    assert crates[j] == CrateOf(found, n);
    if status(crates[j]) == NOT_PUBLISHED {
      PlannedIfMissing(crates, status, j);
    }
  }

  /** An upload, and what the registry held when it started. */
  datatype Upload = Upload(crate: Crate, held: set<Crate>)

  /** The first `n` uploads of a list when each one before succeeded. */
  ghost function Uploads(todo: seq<Crate>, held: set<Crate>, n: nat): (uploads: seq<Upload>)
    requires n <= |todo|
    ensures |uploads| == n && forall k :: 0 <= k < n ==> uploads[k] == Upload(todo[k], held + SetOf(todo[..k]))
  {
    if n == 0 then [] else Uploads(todo, held, n - 1) + [Upload(todo[n - 1], held + SetOf(todo[..n - 1]))]
  }

  lemma OneMoreHeld(todo: seq<Crate>, held: set<Crate>, k: nat)
    requires k < |todo|
    ensures held + SetOf(todo[..k + 1]) == held + SetOf(todo[..k]) + {todo[k]}
  {
    assert todo[..k + 1] == todo[..k] + [todo[k]];
  }

  class Registry {
    var held: set<Crate>
    ghost var log: seq<Upload>

    constructor (held: set<Crate>)
      ensures this.held == held && log == []
    {
      this.held := held;
      log := [];
    }

    /** `cargo publish`: on success the registry holds the crate from then on. */
    method Publish(crate: Crate, exit: int)
      modifies this
      ensures log == old(log) + [Upload(crate, old(held))]
      ensures held == if exit == 0 then old(held) + {crate} else old(held)
    {
      log := log + [Upload(crate, held)];
      if exit == 0 {
        held := held + {crate};
      }
    }

    /** The upload loop: in order, stopping at the first failure. `exit(k)` is the outcome of the k-th
        upload. The returned count is how many succeeded. */
    method UploadAll(todo: seq<Crate>, exit: nat -> int) returns (code: int, ghost done: nat)
      modifies this
      ensures done <= |todo| && (forall k: nat :: k < done ==> exit(k) == 0)
      ensures code == if done == |todo| then 0 else exit(done)
      ensures done < |todo| ==> exit(done) != 0
      ensures held == old(held) + SetOf(todo[..done])
      ensures log == old(log) + Uploads(todo, old(held), if done == |todo| then done else done + 1)
    {
      hide SetOf;
      done := 0;
      NothingUploaded(todo, held);
      for k := 0 to |todo|
        invariant done == k && forall j: nat :: j < k ==> exit(j) == 0
        invariant held == old(held) + SetOf(todo[..k])
        invariant log == old(log) + Uploads(todo, old(held), k)
      {
        code := exit(k);
        Publish(todo[k], code);
        if code != 0 {
          return;
        }
        OneMoreHeld(todo, old(held), k);
        done := k + 1;
      }
      code := 0;
    }
  }

  lemma NothingUploaded(todo: seq<Crate>, held: set<Crate>)
    ensures held == held + SetOf(todo[..0]) && Uploads(todo, held, 0) == []
  {
  }

  /** The dependencies have an order, the tag names the root version, and the registry says of every
      published member whether it is there. */
  ghost predicate Accepted(members: seq<Member>, rootVersion: string, tag: string, status: Crate -> int) {
    && !Cyclic(Found(members))
    && tag == "v" + rootVersion
    && forall n :: n in Found(members) ==> status(CrateOf(Found(members), n)) in {PUBLISHED, NOT_PUBLISHED}
  }

  /** `main`: order, tag check, plan, uploads. Every upload the run starts, the failing one included,
      starts with all it depends on held; a run that is refused uploads nothing; and a run that ends
      with 0 leaves every published member held. */
  method Release(
    members: seq<Member>, rootVersion: string, tag: string, status: Crate -> int, exit: nat -> int, registry: Registry)
    returns (code: int, ghost names: seq<string>, ghost done: nat)
    requires Truthful(status, registry.held)
    modifies registry
    ensures Accepted(members, rootVersion, tag, status) ==>
              && CompleteOrder(Found(members), names) && Plan(Crates(Found(members), names), status).Ok?
              && var todo := Plan(Crates(Found(members), names), status).value;
              && done <= |todo| && (forall k: nat :: k < done ==> exit(k) == 0) && (done < |todo| ==> exit(done) != 0)
              && code == (if done == |todo| then 0 else exit(done))
              && registry.held == old(registry.held) + SetOf(todo[..done])
              && registry.log ==
                 old(registry.log) + Uploads(todo, old(registry.held), if done == |todo| then done else done + 1)
    ensures !Accepted(members, rootVersion, tag, status) ==>
            code == 1 && registry.log == old(registry.log) && registry.held == old(registry.held)
    ensures forall k :: |old(registry.log)| <= k < |registry.log| ==>
              Ready(Found(members), registry.log[k].held, registry.log[k].crate)
    ensures code == 0 ==> forall n :: n in Found(members) ==> CrateOf(Found(members), n) in registry.held
  {
    hide Truthful, Ready, Plan, Cyclic, Found, SetOf, Needs;
    names, done := [], 0;
    var ordered := Publishable(members);
    if ordered.Refused? {
      return 1, [], 0;
    }
    names := ordered.value;
    var found := Found(members);
    if tag != "v" + rootVersion {
      return 1, [], 0;
    }
    var crates := Crates(found, ordered.value);
    var todo := PlanLoop(crates, status);
    PlanRefusesIff(crates, status);
    StrangeAnswer(found, names, status);
    if todo.Refused? {
      return 1, [], 0;
    }
    ghost var held, log := registry.held, registry.log;
    code, done := registry.UploadAll(todo.value, exit);
    UploadsAreReady(found, names, status, held, log, registry.log, if done == |todo.value| then done else done + 1);
    if code == 0 {
      assert todo.value[..done] == todo.value;
      forall n | n in found
        ensures CrateOf(found, n) in registry.held
      {
        PlanCompletes(found, names, status, held, n);
      }
    }
  }

  lemma UploadsAreReady(found: Packages, names: seq<string>, status: Crate -> int, held: set<Crate>,
                        before: seq<Upload>, after: seq<Upload>, n: nat)
    requires CompleteOrder(found, names) && Truthful(status, held)
    requires Plan(Crates(found, names), status).Ok? && n <= |Plan(Crates(found, names), status).value|
    requires after == before + Uploads(Plan(Crates(found, names), status).value, held, n)
    ensures forall k :: |before| <= k < |after| ==> Ready(found, after[k].held, after[k].crate)
  {
    hide CompleteOrder, Truthful, Ready, Plan;
    forall k | |before| <= k < |after|
      ensures Ready(found, after[k].held, after[k].crate)
    {
      PlannedIsReady(found, names, status, held, k - |before|);
    }
  }

  lemma StrangeAnswer(found: Packages, names: seq<string>, status: Crate -> int)
    requires CompleteOrder(found, names)
    ensures (forall n :: n in found ==> status(CrateOf(found, n)) in {PUBLISHED, NOT_PUBLISHED}) <==>
            forall i :: 0 <= i < |names| ==> status(Crates(found, names)[i]) in {PUBLISHED, NOT_PUBLISHED}
  {
    hide Needs;
    if forall i :: 0 <= i < |names| ==> status(Crates(found, names)[i]) in {PUBLISHED, NOT_PUBLISHED} {
      forall n | n in found
        ensures status(CrateOf(found, n)) in {PUBLISHED, NOT_PUBLISHED}
      {
        var i :| 0 <= i < |names| && names[i] == n;
        assert Crates(found, names)[i] == CrateOf(found, n);
      }
    }
  }

  /** The plan is the crates the registry does not have, each as often as it is listed. */
  lemma {:induction false} PlanIs(crates: seq<Crate>, status: Crate -> int, crate: Crate)
    requires Plan(crates, status).Ok?
    ensures multiset(Plan(crates, status).value)[crate] ==
            if status(crate) == NOT_PUBLISHED then multiset(crates)[crate] else 0
  {
    if crates != [] {
      var n := |crates| - 1;
      PlanIs(crates[..n], status, crate);
      assert crates == crates[..n] + [crates[n]];
      assert multiset(crates) == multiset(crates[..n]) + multiset{crates[n]};
    }
  }
}

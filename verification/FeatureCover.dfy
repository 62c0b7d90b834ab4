/** `check-feature-deps.py`: what the feature sets read off a condition cover, and what the check of a
    gated module then guarantees. */
module FeatureCover {
  import opened Text
  import opened FeatureDeps
  import opened FeatureGates

  /** Every build that compiles the module turns on all of some alternative. */
  ghost predicate Covers(alternatives: seq<set<string>>, c: Cfg) {
    forall on: set<string>, env: string -> bool :: Holds(c, on, env) ==> SomeWithin(alternatives, on)
  }

  ghost predicate SomeWithin(alternatives: seq<set<string>>, on: set<string>) {
    exists i :: 0 <= i < |alternatives| && alternatives[i] <= on
  }

  function Names(c: Cfg): set<string> {
    set n | n in Atoms(c)
  }

  // ---------------------------------------------------------------- only named features matter

  lemma {:induction false} AtomOfArg(args: seq<Cfg>, n: string)
    ensures n in ArgAtoms(args) <==> exists a :: a in args && n in Atoms(a)
  {
    hide Atoms;
    if args != [] {
      AtomOfArg(args[1..], n);
      assert forall a :: a in args <==> a == args[0] || a in args[1..];
      assert ArgAtoms(args) == Atoms(args[0]) + ArgAtoms(args[1..]);
      assert args[0] in args;
    }
  }

  /** Two builds that agree on every feature the condition names compile the module alike. */
  lemma {:induction false} OnlyNamesMatter(c: Cfg, on: set<string>, other: set<string>, env: string -> bool)
    requires forall n :: n in Atoms(c) ==> (n in on <==> n in other)
    ensures Holds(c, on, env) == Holds(c, other, env)
  {
    match c {
      case Feature(_) =>
      case Other(_) =>
      case All(args) => ArgsAgree(args, on, other, env);
      case Any(args) => ArgsAgree(args, on, other, env);
      case Not(arg) => OnlyNamesMatter(arg, on, other, env);
      case Spaced(_, inner, _) => OnlyNamesMatter(inner, on, other, env);
    }
  }

  lemma {:induction false} ArgsAgree(args: seq<Cfg>, on: set<string>, other: set<string>, env: string -> bool)
    requires forall n :: n in ArgAtoms(args) ==> (n in on <==> n in other)
    ensures forall a :: a in args ==> Holds(a, on, env) == Holds(a, other, env)
    decreases args
  {
    forall a | a in args
      ensures Holds(a, on, env) == Holds(a, other, env)
    {
      forall n | n in Atoms(a)
        ensures n in on <==> n in other
      {
        AtomOfArg(args, n);
      }
      OnlyNamesMatter(a, on, other, env);
    }
  }

  // ---------------------------------------------------------------- exactly when it covers

  /** The condition cannot hold with every feature off. */
  ghost predicate DeadWithoutFeatures(c: Cfg) {
    forall env: string -> bool :: !Holds(c, {}, env)
  }

  /** The condition cannot hold in a build that leaves one of its features off, whichever of its other
      features are on. */
  ghost predicate DeadWithout(c: Cfg, n: string) {
    forall on: set<string>, env: string -> bool :: on <= Names(c) - {n} ==> !Holds(c, on, env)
  }

  /** When the alternatives cover the condition: for a condition read whole, trying each of its features
      off; for any other, trying all of them off. */
  ghost predicate Coverable(c: Cfg) {
    if ReadWhole(c) && Atoms(c) != [] then forall n :: n in Atoms(c) ==> DeadWithout(c, n) else DeadWithoutFeatures(c)
  }

  lemma ReadWholeCovers(c: Cfg)
    ensures Covers([Names(c)], c) <==> forall n :: n in Atoms(c) ==> DeadWithout(c, n)
  {
    hide Holds, Atoms;
    if Covers([Names(c)], c) {
      forall n, on: set<string>, env: string -> bool | n in Atoms(c) && on <= Names(c) - {n}
        ensures !Holds(c, on, env)
      {
        assert n in Names(c) && n !in on;
        assert !SomeWithin([Names(c)], on);
      }
    }
    if forall n :: n in Atoms(c) ==> DeadWithout(c, n) {
      forall on: set<string>, env: string -> bool | Holds(c, on, env)
        ensures SomeWithin([Names(c)], on)
      {
        var named := on * Names(c);
        OnlyNamesMatter(c, on, named, env);
        forall n | n in Atoms(c)
          ensures n in on
        {
          assert DeadWithout(c, n);
          assert n !in on ==> named <= Names(c) - {n};
        }
        assert [Names(c)][0] <= on;
      }
    }
  }

  lemma SinglesCover(c: Cfg, alternatives: seq<set<string>>)
    requires |alternatives| == |Atoms(c)| && forall i :: 0 <= i < |Atoms(c)| ==> alternatives[i] == {Atoms(c)[i]}
    ensures Covers(alternatives, c) <==> DeadWithoutFeatures(c)
  {
    hide Holds, Atoms;
    if Covers(alternatives, c) {
      assert forall i :: 0 <= i < |alternatives| ==> Atoms(c)[i] in alternatives[i];
      assert !SomeWithin(alternatives, {});
    }
    if DeadWithoutFeatures(c) {
      forall on: set<string>, env: string -> bool | Holds(c, on, env)
        ensures SomeWithin(alternatives, on)
      {
        if forall n :: n in Atoms(c) ==> n !in on {
          OnlyNamesMatter(c, on, {}, env);
        } else {
          var n :| n in Atoms(c) && n in on;
          var i :| 0 <= i < |Atoms(c)| && Atoms(c)[i] == n;
          assert alternatives[i] <= on;
        }
      }
    }
  }

  /** For every condition over `all`, `any` and `not`: the alternatives read off its text cover every
      build that compiles the module exactly when it is coverable. */
  lemma AlternativesCoverIff(c: Cfg)
    requires WellFormed(c)
    ensures Covers(Alternatives(Show(c)), c) <==> Coverable(c)
  {
    hide WellFormed, Alternatives, Show, Holds, Atoms, ReadWhole, Covers, DeadWithout, DeadWithoutFeatures;
    AlternativesOfText(c);
    if ReadWhole(c) && Atoms(c) != [] {
      ReadWholeCovers(c);
    } else {
      SinglesCover(c, Alternatives(Show(c)));
    }
  }

  // ---------------------------------------------------------------- conditions without `not`

  predicate NoNot(c: Cfg) {
    match c
    case Feature(_) => true
    case Other(_) => true
    case All(args) => forall a :: a in args ==> NoNot(a)
    case Any(args) => forall a :: a in args ==> NoNot(a)
    case Not(_) => false
    case Spaced(_, inner, _) => NoNot(inner)
  }

  /** Each way to satisfy the condition goes through a feature. */
  predicate NeedsFeature(c: Cfg) {
    match c
    case Feature(_) => true
    case Other(_) => false
    case All(args) => exists a :: a in args && NeedsFeature(a)
    case Any(args) => forall a :: a in args ==> NeedsFeature(a)
    case Not(_) => false
    case Spaced(_, inner, _) => NeedsFeature(inner)
  }

  /** With `all` alone, a build that compiles the module turns on every feature it names. */
  lemma {:induction false} AllTurnsOnEach(c: Cfg, on: set<string>, env: string -> bool, n: string)
    requires NoNot(c) && !HasAny(c) && Holds(c, on, env) && n in Atoms(c)
    ensures n in on
  {
    if c.Spaced? {
      AllTurnsOnEach(c.inner, on, env, n);
    } else if c.All? {
      AtomOfArg(c.args, n);
      var a :| a in c.args && n in Atoms(a);
      AllTurnsOnEach(a, on, env, n);
    }
  }

  lemma {:induction false} NeedsFeatureIsDead(c: Cfg, env: string -> bool)
    requires NoNot(c) && NeedsFeature(c)
    ensures !Holds(c, {}, env)
  {
    match c {
      case Feature(_) =>
      case All(args) =>
        var a :| a in args && NeedsFeature(a);
        NeedsFeatureIsDead(a, env);
      case Any(args) =>
        forall a | a in args
          ensures !Holds(a, {}, env)
        {
          NeedsFeatureIsDead(a, env);
        }
      case Spaced(_, inner, _) => NeedsFeatureIsDead(inner, env);
    }
  }

  lemma {:induction false} HoldsWithoutFeatures(c: Cfg)
    requires NoNot(c) && !NeedsFeature(c)
    ensures Holds(c, {}, (text: string) => true)
  {
    match c {
      case Feature(_) =>
      case Other(_) =>
      case All(args) =>
        forall a | a in args
          ensures Holds(a, {}, (text: string) => true)
        {
          HoldsWithoutFeatures(a);
        }
      case Any(args) =>
        var a :| a in args && !NeedsFeature(a);
        HoldsWithoutFeatures(a);
      case Spaced(_, inner, _) => HoldsWithoutFeatures(inner);
    }
  }

  lemma {:induction false} NamedNeedsFeature(c: Cfg)
    requires NoNot(c) && !HasAny(c) && Atoms(c) != []
    ensures NeedsFeature(c)
  {
    if c.Spaced? {
      NamedNeedsFeature(c.inner);
    } else if c.All? {
      AtomOfArg(c.args, Atoms(c)[0]);
      assert Atoms(c)[0] in Atoms(c);
      var a :| a in c.args && Atoms(c)[0] in Atoms(a);
      NamedNeedsFeature(a);
    }
  }

  /** Without `not`, what makes a condition coverable can be read off its shape. */
  lemma PlainCoverableIff(c: Cfg)
    requires NoNot(c)
    ensures Coverable(c) <==> NeedsFeature(c)
  {
    hide NoNot, NeedsFeature, Atoms, HasAny, Holds, Bare;
    if ReadWhole(c) && Atoms(c) != [] {
      NamedNeedsFeature(c);
      forall n, on: set<string>, env: string -> bool | n in Atoms(c) && on <= Names(c) - {n}
        ensures !Holds(c, on, env)
      {
        if Holds(c, on, env) {
          AllTurnsOnEach(c, on, env, n);
        }
      }
    } else if NeedsFeature(c) {
      forall env: string -> bool
        ensures !Holds(c, {}, env)
      {
        NeedsFeatureIsDead(c, env);
      }
    } else {
      HoldsWithoutFeatures(c);
    }
  }

  /** Built from `all` and `any` over features alone, with no empty `all()`. */
  predicate PureFeatures(c: Cfg) {
    match c
    case Feature(_) => true
    case Other(_) => false
    case All(args) => args != [] && forall a :: a in args ==> PureFeatures(a)
    case Any(args) => forall a :: a in args ==> PureFeatures(a)
    case Not(_) => false
    case Spaced(_, inner, _) => PureFeatures(inner)
  }

  lemma {:induction false} PureIsPlain(c: Cfg)
    requires PureFeatures(c)
    ensures NeedsFeature(c) && NoNot(c)
  {
    match c {
      case Feature(_) =>
      case All(args) =>
        forall a | a in args
          ensures NeedsFeature(a) && NoNot(a)
        {
          PureIsPlain(a);
        }
        assert args[0] in args;
      case Any(args) =>
        forall a | a in args
          ensures NeedsFeature(a) && NoNot(a)
        {
          PureIsPlain(a);
        }
      case Spaced(_, inner, _) => PureIsPlain(inner);
    }
  }

  /** Conditions over features alone are always coverable. */
  lemma PureIsCoverable(c: Cfg)
    requires PureFeatures(c)
    ensures Coverable(c)
  {
    hide PureFeatures, NoNot, NeedsFeature, Coverable;
    PureIsPlain(c);
    PlainCoverableIff(c);
  }

  // ---------------------------------------------------------------- `all` over literals

  datatype Atom = Named(name: string) | Unnamed(text: string)

  predicate IsAtom(c: Cfg) {
    Bare(c).Feature? || Bare(c).Other?
  }

  function AtomOf(c: Cfg): Atom
    requires IsAtom(c)
  {
    if Bare(c).Feature? then Named(Bare(c).name) else Unnamed(Bare(c).text)
  }

  /** An atom, the negation of one, or an `all` of such conditions, nested and spaced at will. */
  predicate IsConjunction(c: Cfg) {
    match c
    case Feature(_) => true
    case Other(_) => true
    case All(args) => forall a :: a in args ==> IsConjunction(a)
    case Any(_) => false
    case Not(arg) => IsAtom(arg)
    case Spaced(_, inner, _) => IsConjunction(inner)
  }

  /** The atoms the conjunction asks to be on. */
  ghost predicate Asserts(c: Cfg, x: Atom) {
    match c
    case Feature(name) => x == Named(name)
    case Other(text) => x == Unnamed(text)
    case All(args) => exists a :: a in args && Asserts(a, x)
    case Any(_) => false
    case Not(_) => false
    case Spaced(_, inner, _) => Asserts(inner, x)
  }

  /** The atoms the conjunction asks to be off. */
  ghost predicate Denies(c: Cfg, x: Atom) {
    match c
    case Feature(_) => false
    case Other(_) => false
    case All(args) => exists a :: a in args && Denies(a, x)
    case Any(_) => false
    case Not(arg) => IsAtom(arg) && x == AtomOf(arg)
    case Spaced(_, inner, _) => Denies(inner, x)
  }

  predicate IsOn(x: Atom, on: set<string>, env: string -> bool) {
    match x
    case Named(name) => name in on
    case Unnamed(text) => env(text)
  }

  lemma {:induction false} AtomHolds(c: Cfg, on: set<string>, env: string -> bool)
    requires IsAtom(c)
    ensures Holds(c, on, env) <==> IsOn(AtomOf(c), on, env)
  {
    if c.Spaced? {
      AtomHolds(c.inner, on, env);
    }
  }

  lemma {:induction false} AtomNames(c: Cfg, n: string)
    requires IsAtom(c)
    ensures n in Atoms(c) <==> AtomOf(c) == Named(n)
  {
    if c.Spaced? {
      AtomNames(c.inner, n);
    }
  }

  /** A conjunction holds exactly when all it asserts is on and all it denies is off. */
  lemma {:induction false} ConjunctionHolds(c: Cfg, on: set<string>, env: string -> bool)
    requires IsConjunction(c)
    ensures Holds(c, on, env) <==>
            (forall x :: Asserts(c, x) ==> IsOn(x, on, env)) && (forall x :: Denies(c, x) ==> !IsOn(x, on, env))
  {
    match c {
      case Feature(name) =>
        assert Asserts(c, Named(name));
      case Other(text) =>
        assert Asserts(c, Unnamed(text));
      case All(args) =>
        forall a | a in args
          ensures Holds(a, on, env) <==>
                  (forall x :: Asserts(a, x) ==> IsOn(x, on, env)) && (forall x :: Denies(a, x) ==> !IsOn(x, on, env))
        {
          ConjunctionHolds(a, on, env);
        }
        AllHolds(c, on, env);
      case Not(arg) =>
        AtomHolds(arg, on, env);
        assert Denies(c, AtomOf(arg));
      case Spaced(_, inner, _) =>
        ConjunctionHolds(inner, on, env);
        assert forall x :: Asserts(c, x) == Asserts(inner, x) && Denies(c, x) == Denies(inner, x);
    }
  }

  ghost predicate Meets(c: Cfg, on: set<string>, env: string -> bool) {
    (forall x :: Asserts(c, x) ==> IsOn(x, on, env)) && (forall x :: Denies(c, x) ==> !IsOn(x, on, env))
  }

  lemma AllHolds(c: Cfg, on: set<string>, env: string -> bool)
    requires c.All? && forall a :: a in c.args ==> (Holds(a, on, env) <==> Meets(a, on, env))
    ensures Holds(c, on, env) <==> Meets(c, on, env)
  {
    hide IsOn;
    assert forall x :: Asserts(c, x) <==> exists a :: a in c.args && Asserts(a, x);
    assert forall x :: Denies(c, x) <==> exists a :: a in c.args && Denies(a, x);
    if Meets(c, on, env) {
      forall a | a in c.args
        ensures Meets(a, on, env)
      {
        assert forall x :: Asserts(a, x) ==> Asserts(c, x);
        assert forall x :: Denies(a, x) ==> Denies(c, x);
      }
    }
  }

  lemma {:induction false} ConjunctionNames(c: Cfg, n: string)
    requires IsConjunction(c)
    ensures n in Atoms(c) <==> Asserts(c, Named(n)) || Denies(c, Named(n))
  {
    match c {
      case Feature(_) =>
      case Other(_) =>
      case All(args) =>
        AtomOfArg(args, n);
        forall a | a in args
          ensures n in Atoms(a) <==> Asserts(a, Named(n)) || Denies(a, Named(n))
        {
          ConjunctionNames(a, n);
        }
      case Not(arg) => AtomNames(arg, n);
      case Spaced(_, inner, _) => ConjunctionNames(inner, n);
    }
  }

  /** The conjunction asks for some atom both on and off. */
  ghost predicate Contradicts(c: Cfg) {
    exists x :: Asserts(c, x) && Denies(c, x)
  }

  lemma ContradictionIsDead(c: Cfg, on: set<string>, env: string -> bool)
    requires IsConjunction(c) && Contradicts(c)
    ensures !Holds(c, on, env)
  {
    hide Holds;
    ConjunctionHolds(c, on, env);
    var x :| Asserts(c, x) && Denies(c, x);
    assert Holds(c, on, env) ==> IsOn(x, on, env);
  }

  /** The build a consistent conjunction asks for, and nothing more. */
  lemma LeastBuild(c: Cfg) returns (on: set<string>, env: string -> bool)
    requires IsConjunction(c) && !Contradicts(c)
    ensures Holds(c, on, env) && on <= Names(c) && forall n :: n in on <==> Asserts(c, Named(n))
  {
    hide IsConjunction, Holds, Atoms, Asserts, Denies;
    on := AssertedNames(c, Atoms(c));
    env := AssertedOthers(c);
    forall n
      ensures Asserts(c, Named(n)) ==> n in Atoms(c)
    {
      ConjunctionNames(c, n);
    }
    ConjunctionHolds(c, on, env);
    forall x | Asserts(c, x)
      ensures IsOn(x, on, env)
    {
    }
    forall x | Denies(c, x)
      ensures !IsOn(x, on, env)
    {
      assert !Asserts(c, x);
    }
  }

  ghost function AssertedNames(c: Cfg, names: seq<string>): set<string> {
    set n | n in names && Asserts(c, Named(n))
  }

  ghost function AssertedOthers(c: Cfg): string -> bool {
    (text: string) => Asserts(c, Unnamed(text))
  }

  /** For an `all` over literals the exact condition can be read off its shape: no feature is negated,
      or the condition contradicts itself and never holds. */
  lemma LiteralsCoverableIff(c: Cfg)
    requires ReadWhole(c) && IsConjunction(c) && Atoms(c) != []
    ensures Coverable(c) <==> (forall n :: !Denies(c, Named(n))) || Contradicts(c)
  {
    hide IsConjunction, Holds, Atoms, Asserts, Denies, ReadWhole;
    if Contradicts(c) {
      forall on: set<string>, env: string -> bool
        ensures !Holds(c, on, env)
      {
        ContradictionIsDead(c, on, env);
      }
    } else if n :| Denies(c, Named(n)) {
      var on, env := LeastBuild(c);
      ConjunctionNames(c, n);
      assert !Asserts(c, Named(n));
      assert on <= Names(c) - {n};
      assert !DeadWithout(c, n);
    } else {
      forall n, on: set<string>, env: string -> bool | n in Atoms(c) && on <= Names(c) - {n}
        ensures !Holds(c, on, env)
      {
        ConjunctionNames(c, n);
        assert !Denies(c, Named(n));
        ConjunctionHolds(c, on, env);
        assert Asserts(c, Named(n)) && !IsOn(Named(n), on, env);
      }
    }
  }

  /** So a `not` inside an `all` can make the reading miss a build: `all(a, not(b))` compiles with `a`
      alone, and only `a` and `b` together are examined. */
  lemma NotIsMisread()
    ensures var c := All([Feature("a"), Spaced(" ", Not(Feature("b")), "")]);
            WellFormed(c) && Alternatives(Show(c)) == [{"a", "b"}] && !Covers(Alternatives(Show(c)), c)
  {
    hide Alternatives, Show, Covers, Coverable, WellFormed, Atoms, HasAny;
    Misread("a", "b");
  }

  lemma Misread(a: string, b: string)
    requires FeatureName(a) && FeatureName(b) && a != b
    ensures var c := All([Feature(a), Spaced(" ", Not(Feature(b)), "")]);
            WellFormed(c) && Alternatives(Show(c)) == [{a, b}] && !Covers(Alternatives(Show(c)), c)
  {
    hide Alternatives, Show, Covers, Coverable, FeatureName;
    var x, y := Feature(a), Not(Feature(b));
    var z := Spaced(" ", y, "");
    var c := All([x, z]);
    MisreadShape(a, b);
    AlternativesOfText(c);
    assert (set n | n in [a, b]) == {a, b};
    AlternativesCoverIff(c);
    LiteralsCoverableIff(c);
    forall v
      ensures Asserts(c, v) <==> v == Named(a)
      ensures Denies(c, v) <==> v == Named(b)
    {
      AllOfTwo(x, z, v);
      assert !Asserts(y, v) && (Denies(y, v) <==> v == Named(b));
      assert !Asserts(z, v) && (Denies(z, v) <==> v == Named(b));
    }
    hide Asserts, Denies;
    assert Denies(c, Named(b)) && !Contradicts(c);
  }

  lemma AllOfTwo(p: Cfg, q: Cfg, v: Atom)
    ensures Asserts(All([p, q]), v) <==> Asserts(p, v) || Asserts(q, v)
    ensures Denies(All([p, q]), v) <==> Denies(p, v) || Denies(q, v)
  {
    assert forall a :: a in [p, q] <==> a == p || a == q;
  }

  lemma MisreadShape(a: string, b: string)
    requires FeatureName(a) && FeatureName(b)
    ensures var c := All([Feature(a), Spaced(" ", Not(Feature(b)), "")]);
            WellFormed(c) && ReadWhole(c) && IsConjunction(c) && Atoms(c) == [a, b]
  {
    var x, y := Feature(a), Not(Feature(b));
    var z := Spaced(" ", y, "");
    assert IsSpace(' ');
    assert WellFormed(x) && WellFormed(y) && WellFormed(Feature(b));
    assert WellFormed(z);
    assert !HasAny(Feature(b)) && !HasAny(x) && !HasAny(y) && !HasAny(z);
    assert [x, z][1..] == [z] && [z][1..] == [];
    assert Atoms(Feature(b)) == [b] && Atoms(y) == [b] && Atoms(z) == [b];
    assert ArgAtoms([z]) == Atoms(z) + ArgAtoms([]);
    assert ArgAtoms([x, z]) == Atoms(x) + ArgAtoms([z]);
  }

  // ---------------------------------------------------------------- the check

  /** These features, turned on together, pull in the crate. */
  ghost predicate Supplied(feats: Features, on: set<string>, crate: string) {
    exists f, g :: f in on && Reaches(feats, f, g) && crate in Crates(Entries(feats, g))
  }

  datatype Problem = Missing(alternative: nat, crate: string)

  /** The crates all features of a list supply together. */
  method SupplyOfAll(feats: Features, features: set<string>) returns (supplied: set<string>)
    ensures forall c :: c in supplied <==> Supplied(feats, features, c)
  {
    supplied := {};
    var left := features;
    while left != {}
      invariant left <= features
      invariant forall c :: c in supplied <==> Supplied(feats, features - left, c)
      decreases |left|
    {
      var f :| f in left;
      var more := Supply(f, feats);
      assert features - (left - {f}) == (features - left) + {f};
      SupplyStep(feats, features - left, f, supplied, more);
      supplied := supplied + more;
      left := left - {f};
    }
    assert features - {} == features;
  }

  lemma SupplyStep(feats: Features, fs: set<string>, f: string, supplied: set<string>, more: set<string>)
    requires (forall c :: c in supplied <==> Supplied(feats, fs, c)) && IsSupply(feats, f, more)
    ensures forall c :: c in supplied + more <==> Supplied(feats, fs + {f}, c)
  {
    hide Reaches, Crates;
  }

  /** The check of one module: a problem for each alternative and each imported crate it does not supply. */
  method CheckModule(feats: Features, alternatives: seq<set<string>>, used: set<string>)
    returns (problems: set<Problem>)
    ensures forall i: nat, c :: Missing(i, c) in problems <==>
            i < |alternatives| && c in used && !Supplied(feats, alternatives[i], c)
  {
    hide Supplied;
    problems := {};
    for k := 0 to |alternatives|
      invariant forall i: nat, c :: Missing(i, c) in problems <==>
                i < k && c in used && !Supplied(feats, alternatives[i], c)
    {
      var supplied := SupplyOfAll(feats, alternatives[k]);
      problems := problems + set c | c in used && c !in supplied :: Missing(k, c);
    }
  }

  /** No problem is reported for the crate. */
  ghost predicate IsClean(feats: Features, alternatives: seq<set<string>>, crate: string) {
    forall i :: 0 <= i < |alternatives| ==> Supplied(feats, alternatives[i], crate)
  }

  /** With a clean report for an imported crate, every build that compiles the module pulls it in. */
  ghost predicate CleanMeansSupplied(c: Cfg) {
    forall feats: Features, crate: string, on: set<string>, env: string -> bool ::
      IsClean(feats, Alternatives(Show(c)), crate) && Holds(c, on, env) ==> Supplied(feats, on, crate)
  }

  lemma {:induction false} SuppliedByMore(feats: Features, fewer: set<string>, on: set<string>, crate: string)
    requires fewer <= on && Supplied(feats, fewer, crate)
    ensures Supplied(feats, on, crate)
  {
    hide Reaches, Crates;
    var f, g :| f in fewer && Reaches(feats, f, g) && crate in Crates(Entries(feats, g));
    assert f in on;
  }

  /** The table in which exactly these features declare the crate `k`. */
  ghost function TableOf(fs: set<string>): Features {
    map f | f in fs :: ["dep:k"]
  }

  lemma TableSupplies(fs: set<string>, on: set<string>)
    ensures Supplied(TableOf(fs), on, "k") <==> exists f :: f in on && f in fs
  {
    var feats := TableOf(fs);
    assert "dep:k"[4..] == "k" && "dep:k"[..4] == DEP;
    if f :| f in on && f in fs {
      ReachesItself(feats, f);
      assert "dep:k" in Entries(feats, f);
      assert "k" in Crates(Entries(feats, f));
    }
    if Supplied(feats, on, "k") {
      var f, g :| f in on && Reaches(feats, f, g) && "k" in Crates(Entries(feats, g));
      var path :| PathFromTo(feats, path, f, g);
      assert |path| > 1 ==> Links(feats, path[0], path[0 + 1]);
      assert f in fs;
    }
  }

  /** A clean report is worth what it says exactly for the coverable conditions: for these every build
      that compiles the module pulls in all it imports, and for any other condition that names a feature
      some feature table passes the check and still leaves such a build without the crate. */
  lemma CleanReportIff(c: Cfg)
    requires WellFormed(c) && Atoms(c) != []
    ensures CleanMeansSupplied(c) <==> Coverable(c)
  {
    hide WellFormed, Alternatives, Show, Holds, Atoms, Coverable, Supplied;
    AlternativesCoverIff(c);
    var alternatives := Alternatives(Show(c));
    if Covers(alternatives, c) {
      forall feats: Features, crate: string, on: set<string>, env: string -> bool
        | IsClean(feats, alternatives, crate) && Holds(c, on, env)
        ensures Supplied(feats, on, crate)
      {
        assert SomeWithin(alternatives, on);
        var i :| 0 <= i < |alternatives| && alternatives[i] <= on;
        SuppliedByMore(feats, alternatives[i], on, crate);
      }
    } else {
      var on: set<string>, env: string -> bool :| Holds(c, on, env) && !SomeWithin(alternatives, on);
      UncoveredBuild(c, on, alternatives);
      var feats := TableOf(Names(c) - on);
      assert !(IsClean(feats, alternatives, "k") && Holds(c, on, env) ==> Supplied(feats, on, "k"));
    }
  }

  lemma UncoveredBuild(c: Cfg, on: set<string>, alternatives: seq<set<string>>)
    requires WellFormed(c) && alternatives == Alternatives(Show(c)) && !SomeWithin(alternatives, on)
    ensures IsClean(TableOf(Names(c) - on), alternatives, "k") && !Supplied(TableOf(Names(c) - on), on, "k")
  {
    hide WellFormed, Alternatives, Show, Atoms, Supplied, TableOf, ReadWhole;
    AlternativesOfText(c);
    var missing := Names(c) - on;
    TableSupplies(missing, on);
    forall i | 0 <= i < |alternatives|
      ensures Supplied(TableOf(missing), alternatives[i], "k")
    {
      var f :| f in alternatives[i] && f !in on;
      assert alternatives[i] <= Names(c);
      assert f in missing;
      TableSupplies(missing, alternatives[i]);
    }
  }
}

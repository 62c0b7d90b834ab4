/** `check-feature-deps.py`, `cfg_alternatives`: which feature sets are read off the text of a cfg
    condition. */
module FeatureGates {
  import opened Text

  // ---------------------------------------------------------------- cfg expressions

  /** A cfg condition as written. `Other` is any atom that is not a feature, such as `unix`, and
      `Spaced` is white space around a condition. */
  datatype Cfg =
    | Feature(name: string)
    | Other(text: string)
    | All(args: seq<Cfg>)
    | Any(args: seq<Cfg>)
    | Not(arg: Cfg)
    | Spaced(pre: string, inner: Cfg, post: string)

  /** Whether the condition holds with these features on. */
  predicate Holds(c: Cfg, on: set<string>, env: string -> bool) {
    match c
    case Feature(name) => name in on
    case Other(text) => env(text)
    case All(args) => forall a :: a in args ==> Holds(a, on, env)
    case Any(args) => exists a :: a in args && Holds(a, on, env)
    case Not(arg) => !Holds(arg, on, env)
    case Spaced(_, inner, _) => Holds(inner, on, env)
  }

  /** The condition without the white space around it. */
  function Bare(c: Cfg): (b: Cfg)
    ensures !b.Spaced?
  {
    if c.Spaced? then Bare(c.inner) else c
  }

  /** The text of a condition. */
  function Show(c: Cfg): string
    decreases c, 0
  {
    match c
    case Feature(name) => FEATURE + name + "\""
    case Other(text) => text
    case All(args) => "all(" + ShowArgs(args) + ")"
    case Any(args) => "any(" + ShowArgs(args) + ")"
    case Not(arg) => "not(" + Show(arg) + ")"
    case Spaced(pre, inner, post) => pre + Show(inner) + post
  }

  function ShowArgs(args: seq<Cfg>): string
    decreases args, 1
  {
    if args == [] then []
    else if |args| == 1 then Show(args[0])
    else Show(args[0]) + "," + ShowArgs(args[1..])
  }

  /** The feature names of a condition, in order. */
  function Atoms(c: Cfg): seq<string>
    decreases c, 0
  {
    match c
    case Feature(name) => [name]
    case Other(_) => []
    case All(args) => ArgAtoms(args)
    case Any(args) => ArgAtoms(args)
    case Not(arg) => Atoms(arg)
    case Spaced(_, inner, _) => Atoms(inner)
  }

  function ArgAtoms(args: seq<Cfg>): seq<string>
    decreases args, 1
  {
    if args == [] then [] else Atoms(args[0]) + ArgAtoms(args[1..])
  }

  predicate HasAny(c: Cfg) {
    match c
    case Feature(_) => false
    case Other(_) => false
    case All(args) => exists a :: a in args && HasAny(a)
    case Any(_) => true
    case Not(arg) => HasAny(arg)
    case Spaced(_, inner, _) => HasAny(inner)
  }

  // ---------------------------------------------------------------- reading the text

  const FEATURE := "feature = \""

  predicate IsNameChar(c: char) {
    'a' <= c <= 'z' || '0' <= c <= '9' || c == '_' || c == '-'
  }

  function NameLength(s: string): (n: nat)
    ensures n <= |s| && (forall i :: 0 <= i < n ==> IsNameChar(s[i])) && (n < |s| ==> !IsNameChar(s[n]))
  {
    if s != [] && IsNameChar(s[0]) then 1 + NameLength(s[1..]) else 0
  }

  /** The length of the name in a `feature = "name"` at the start of `s`, 0 if there is none. */
  function NameAt(s: string): (n: nat)
    ensures n > 0 ==> 11 + n < |s| && s[..11] == FEATURE && s[11 + n] == '"'
    ensures n > 0 ==> forall i :: 11 <= i < 11 + n ==> IsNameChar(s[i])
  {
    if !StartsWith(s, FEATURE) then 0
    else
      var n := NameLength(s[11..]);
      if 11 + n < |s| && s[11 + n] == '"' then n else 0
  }

  /** The names matched by `feature = "([a-z0-9_-]+)"`, left to right. */
  function FindNames(s: string): seq<string>
    decreases |s|
  {
    if s == [] then []
    else
      var n := NameAt(s);
      if n > 0 then [s[11..11 + n]] + FindNames(s[12 + n..]) else FindNames(s[1..])
  }

  /** `"any(" in s`. */
  predicate MentionsAny(s: string) {
    |s| >= 4 && (s[..4] == "any(" || MentionsAny(s[1..]))
  }

  function Singletons(names: seq<string>): (alternatives: seq<set<string>>)
    ensures |alternatives| == |names| && forall i :: 0 <= i < |names| ==> alternatives[i] == {names[i]}
  {
    seq(|names|, i requires 0 <= i < |names| => {names[i]})
  }

  /** `cfg_alternatives`: the feature sets that each, on their own, are taken to compile the module. */
  function Alternatives(expr: string): seq<set<string>> {
    var names := FindNames(expr);
    if names == [] then []
    else
      var body := Strip(expr);
      if StartsWith(body, "all(") && !MentionsAny(body) then [set n | n in names] else Singletons(names)
  }

  // ---------------------------------------------------------------- what the reading finds

  predicate IsPatternChar(c: char) {
    IsNameChar(c) || c == ' ' || c == '=' || c == '"'
  }

  lemma FeatureChars()
    ensures |FEATURE| == 11 && forall i :: 0 <= i < 11 ==> IsPatternChar(FEATURE[i])
  {
  }

  lemma MatchChars(s: string)
    requires NameAt(s) > 0
    ensures forall i :: 0 <= i < 12 + NameAt(s) ==> IsPatternChar(s[i])
  {
    hide NameLength;
    FeatureChars();
    assert forall i :: 0 <= i < 11 ==> s[i] == s[..11][i];
  }

  lemma NameEnd(s: string, n: nat)
    requires n <= |s| && (forall i :: 0 <= i < n ==> IsNameChar(s[i])) && (n < |s| ==> !IsNameChar(s[n]))
    ensures NameLength(s) == n
  {
    hide NameLength, IsNameChar;
  }

  /** A match depends only on the text it covers. */
  lemma SameMatch(s: string, t: string)
    requires NameAt(s) > 0 && |t| >= 12 + NameAt(s) && t[..12 + NameAt(s)] == s[..12 + NameAt(s)]
    ensures NameAt(t) == NameAt(s)
  {
    var n := NameAt(s);
    hide NameLength;
    assert forall i :: 0 <= i < 12 + n ==> t[i] == t[..12 + n][i] == s[i];
    assert t[..11] == s[..11];
    var rest := t[11..];
    assert forall i :: 0 <= i < n ==> rest[i] == t[11 + i];
    assert rest[n] == '"';
    NameEnd(rest, n);
  }

  /** No match reaches across a character that cannot be part of one. */
  lemma {:induction false} NamesAround(a: string, d: char, b: string)
    requires !IsPatternChar(d)
    ensures FindNames(a + [d] + b) == FindNames(a) + FindNames(b)
    decreases |a|
  {
    var s := a + [d] + b;
    hide NameLength;
    if a == [] {
      assert s[0] == d && s[1..] == b;
      if NameAt(s) > 0 {
        MatchChars(s);
      }
    } else {
      SameMatchBefore(a, d, b);
      var n := NameAt(a);
      hide NameAt;
      if n > 0 {
        assert s[12 + n..] == a[12 + n..] + [d] + b;
        assert s[11..11 + n] == a[11..11 + n];
        NamesAround(a[12 + n..], d, b);
      } else {
        assert s[1..] == a[1..] + [d] + b;
        NamesAround(a[1..], d, b);
      }
    }
  }

  lemma SameMatchBefore(a: string, d: char, b: string)
    requires !IsPatternChar(d) && a != []
    ensures NameAt(a + [d] + b) == NameAt(a)
    ensures NameAt(a) > 0 ==> 12 + NameAt(a) <= |a|
  {
    hide NameAt;
    var s := a + [d] + b;
    if NameAt(a) > 0 {
      MatchChars(a);
      assert s[..12 + NameAt(a)] == a[..12 + NameAt(a)];
      SameMatch(a, s);
    } else if NameAt(s) > 0 {
      MatchChars(s);
      assert s[|a|] == d;
      assert s[..12 + NameAt(s)] == a[..12 + NameAt(s)];
      SameMatch(s, a);
    }
  }

  // ---------------------------------------------------------------- what `any(` finds

  lemma {:induction false} NoParenNoAny(s: string)
    requires '(' !in s
    ensures !MentionsAny(s)
  {
    if |s| >= 4 {
      assert s[3] in s;
      assert s[..4][3] == s[3];
      NoParenNoAny(s[1..]);
    }
  }

  /** No mention reaches across a character that is not part of it. */
  lemma {:induction false} AnyAround(a: string, d: char, b: string)
    requires d !in "any("
    ensures MentionsAny(a + [d] + b) <==> MentionsAny(a) || MentionsAny(b)
    decreases |a|
  {
    var s := a + [d] + b;
    if a == [] {
      assert s[1..] == b;
      assert |s| >= 4 ==> s[..4][0] == d;
    } else {
      AnyAround(a[1..], d, b);
      assert s[1..] == a[1..] + [d] + b;
      if |a| >= 4 {
        assert s[..4] == a[..4];
      } else if |s| >= 4 {
        assert s[..4][|a|] == d;
      }
    }
  }

  lemma AnyAfterAll(x: string)
    ensures MentionsAny("all(" + x) == MentionsAny(x)
  {
    var s := "all(" + x;
    assert s[..4] == "all(" && s[1..] == "ll(" + x;
    assert MentionsAny(s) == MentionsAny("ll(" + x);
    hide MentionsAny;
    KeywordSteps("ll(" + x, "l(" + x);
    KeywordSteps("l(" + x, "(" + x);
    KeywordSteps("(" + x, x);
  }

  lemma AnyAfterNot(x: string)
    ensures MentionsAny("not(" + x) == MentionsAny(x)
  {
    hide MentionsAny;
    KeywordSteps("not(" + x, "ot(" + x);
    KeywordSteps("ot(" + x, "t(" + x);
    KeywordSteps("t(" + x, "(" + x);
    KeywordSteps("(" + x, x);
  }

  lemma AnyAfterAny(x: string)
    ensures MentionsAny("any(" + x)
  {
    assert ("any(" + x)[..4] == "any(";
  }

  /** A first character other than `a` starts no mention. */
  lemma KeywordSteps(s: string, rest: string)
    requires s != [] && s[1..] == rest && s[0] != 'a'
    ensures MentionsAny(s) == MentionsAny(rest)
  {
    assert |s| >= 4 ==> s[..4][0] == s[0];
    if |s| < 4 {
      assert |rest| < 4;
    }
  }

  // ---------------------------------------------------------------- well-formed conditions

  /** Text of an atom that is not a feature: one token or `key = "value"`. */
  predicate PlainAtom(text: string) {
    && text != [] && !IsSpace(text[0]) && !IsSpace(text[|text| - 1])
    && (forall i :: 0 <= i < |text| ==> text[i] !in "(),")
    && FindNames(text) == []
  }

  predicate FeatureName(name: string) {
    name != [] && forall i :: 0 <= i < |name| ==> IsNameChar(name[i])
  }

  predicate WellFormed(c: Cfg) {
    match c
    case Feature(name) => FeatureName(name)
    case Other(text) => PlainAtom(text)
    case All(args) => forall a :: a in args ==> WellFormed(a)
    case Any(args) => forall a :: a in args ==> WellFormed(a)
    case Not(arg) => WellFormed(arg)
    case Spaced(pre, inner, post) => AllSpace(pre) && AllSpace(post) && WellFormed(inner)
  }

  lemma FeatureText(name: string)
    requires FeatureName(name)
    ensures FindNames(FEATURE + name + "\"") == [name]
    ensures '(' !in FEATURE + name + "\""
  {
    var s, n := FEATURE + name + "\"", |name|;
    assert s[..11] == FEATURE;
    var rest := s[11..];
    assert rest == name + "\"";
    NameEnd(rest, n);
    assert NameAt(s) == n;
    assert s[11..11 + n] == name && s[12 + n..] == [];
    assert FindNames([]) == [];
    assert FindNames(s) == [name] + [];
    FeatureChars();
  }

  lemma NamesInCall(word: string, x: string)
    requires word in {"all", "any", "not"}
    ensures FindNames(word + "(" + x + ")") == FindNames(x)
  {
    WordHasNoNames(word);
    NamesAround(word, '(', x + ")");
    NamesAround(x, ')', []);
    assert word + "(" + x + ")" == word + ['('] + (x + ")");
    assert x + ")" == x + [')'] + [];
    assert FindNames([]) == [];
  }

  lemma {:induction false} WordHasNoNames(word: string)
    requires |word| < 11
    ensures FindNames(word) == []
  {
    if word != [] {
      WordHasNoNames(word[1..]);
    }
  }

  /** The text of a condition names exactly its features, in order. */
  lemma {:induction false} NamesOfText(c: Cfg)
    requires WellFormed(c)
    ensures FindNames(Show(c)) == Atoms(c)
    decreases c, 0
  {
    hide FindNames;
    match c
    case Feature(name) => FeatureText(name);
    case Other(text) =>
    case All(args) => {
      NamesOfArgs(args);
      NamesInCall("all", ShowArgs(args));
      assert "all" + "(" == "all(";
    }
    case Any(args) => {
      NamesOfArgs(args);
      NamesInCall("any", ShowArgs(args));
      assert "any" + "(" == "any(";
    }
    case Not(arg) => {
      NamesOfText(arg);
      NamesInCall("not", Show(arg));
      assert "not" + "(" == "not(";
    }
    case Spaced(pre, inner, post) => {
      NamesOfText(inner);
      NamesAfterSpace(pre, Show(inner) + post);
      NamesBeforeSpace(Show(inner), post);
      assert Show(c) == pre + (Show(inner) + post);
    }
  }

  lemma {:induction false} NamesOfArgs(args: seq<Cfg>)
    requires forall a :: a in args ==> WellFormed(a)
    ensures FindNames(ShowArgs(args)) == ArgAtoms(args)
    decreases args, 1
  {
    hide WellFormed;
    if args == [] {
    } else {
      assert args[0] in args;
      NamesOfText(args[0]);
      hide FindNames;
      if |args| == 1 {
        assert ArgAtoms(args[1..]) == [];
      } else {
        NamesOfArgs(args[1..]);
        var head, tail := Show(args[0]), ShowArgs(args[1..]);
        assert head + "," + tail == head + [','] + tail;
        NamesAround(head, ',', tail);
      }
    }
  }

  lemma SpacesAre()
    ensures !IsSpace('f') && !IsSpace('a') && !IsSpace('n') && !IsSpace('y') && !IsSpace('(') && !IsSpace(')') &&
            !IsSpace('"')
  {
  }

  /** White space before a text starts no match. */
  lemma {:induction false} NamesAfterSpace(pre: string, s: string)
    requires AllSpace(pre)
    ensures FindNames(pre + s) == FindNames(s)
    decreases |pre|
  {
    hide FindNames, IsSpace;
    SpacesAre();
    if pre == [] {
      assert pre + s == s;
    } else {
      NamesAfterSpace(pre[1..], s);
      NoMatchHere(pre + s);
      assert (pre + s)[1..] == pre[1..] + s;
    }
  }

  lemma NoMatchHere(s: string)
    requires s != [] && s[0] != 'f'
    ensures FindNames(s) == FindNames(s[1..])
  {
    hide NameLength;
    assert |s| >= 11 ==> s[..11][0] == s[0];
  }

  /** A match ends in a quote, so white space after a text is no part of one. */
  lemma {:induction false} NamesBeforeSpace(s: string, post: string)
    requires AllSpace(post)
    ensures FindNames(s + post) == FindNames(s)
    decreases |s|
  {
    hide NameLength, IsSpace;
    if s == [] {
      assert s + post == post + [];
      NamesAfterSpace(post, []);
    } else {
      SameMatchBeforeSpace(s, post);
      var n := NameAt(s);
      hide NameAt;
      if n > 0 {
        assert (s + post)[12 + n..] == s[12 + n..] + post;
        assert (s + post)[11..11 + n] == s[11..11 + n];
        NamesBeforeSpace(s[12 + n..], post);
      } else {
        assert (s + post)[1..] == s[1..] + post;
        NamesBeforeSpace(s[1..], post);
      }
    }
  }

  lemma SameMatchBeforeSpace(s: string, post: string)
    requires AllSpace(post) && s != []
    ensures NameAt(s + post) == NameAt(s)
    ensures NameAt(s) > 0 ==> 12 + NameAt(s) <= |s|
  {
    hide NameAt;
    var all := s + post;
    if NameAt(s) > 0 {
      assert all[..12 + NameAt(s)] == s[..12 + NameAt(s)];
      SameMatch(s, all);
    } else if NameAt(all) > 0 {
      MatchEndsInside(s, post);
      assert all[..12 + NameAt(all)] == s[..12 + NameAt(all)];
      SameMatch(all, s);
    }
  }

  lemma MatchEndsInside(s: string, post: string)
    requires AllSpace(post) && NameAt(s + post) > 0
    ensures 11 + NameAt(s + post) < |s|
  {
    hide NameAt, IsSpace;
    SpacesAre();
    var all := s + post;
    forall k | |s| <= k < |all|
      ensures all[k] != '"'
    {
      assert all[k] == post[k - |s|];
    }
  }

  /** The text of a condition mentions `any(` exactly when the condition has one. */
  lemma {:induction false} AnyOfText(c: Cfg)
    requires WellFormed(c)
    ensures MentionsAny(Show(c)) <==> HasAny(c)
    decreases c, 0
  {
    hide MentionsAny, FindNames;
    match c
    case Feature(name) => {
      FeatureText(name);
      NoParenNoAny(Show(c));
    }
    case Other(text) => {
      assert '(' !in text;
      NoParenNoAny(text);
    }
    case All(args) => {
      AnyOfArgs(args);
      AnyAfterAll(ShowArgs(args) + ")");
      AnyAround(ShowArgs(args), ')', []);
      NoParenNoAny([]);
      assert ShowArgs(args) + ")" == ShowArgs(args) + [')'] + [];
      assert Show(c) == "all(" + (ShowArgs(args) + ")");
    }
    case Any(args) => {
      AnyAfterAny(ShowArgs(args) + ")");
      assert Show(c) == "any(" + (ShowArgs(args) + ")");
    }
    case Not(arg) => {
      AnyOfText(arg);
      AnyAfterNot(Show(arg) + ")");
      AnyAround(Show(arg), ')', []);
      NoParenNoAny([]);
      assert Show(arg) + ")" == Show(arg) + [')'] + [];
      assert Show(c) == "not(" + (Show(arg) + ")");
    }
    case Spaced(pre, inner, post) => {
      AnyOfText(inner);
      AnyAfterSpaces(pre, Show(inner) + post);
      AnyBeforeSpaces(Show(inner), post);
      assert Show(c) == pre + (Show(inner) + post);
    }
  }

  lemma {:induction false} AnyAfterSpaces(pre: string, s: string)
    requires AllSpace(pre)
    ensures MentionsAny(pre + s) == MentionsAny(s)
    decreases |pre|
  {
    hide IsSpace, MentionsAny;
    SpacesAre();
    if pre == [] {
      assert pre + s == s;
    } else {
      AnyAfterSpaces(pre[1..], s);
      KeywordSteps(pre + s, pre[1..] + s);
    }
  }

  lemma AnyBeforeSpaces(s: string, post: string)
    requires AllSpace(post)
    ensures MentionsAny(s + post) == MentionsAny(s)
  {
    hide IsSpace, MentionsAny;
    SpacesAre();
    if post == [] {
      assert s + post == s;
    } else {
      assert s + post == s + [post[0]] + post[1..];
      AnyAround(s, post[0], post[1..]);
      AnyAfterSpaces(post[1..], []);
      assert post[1..] + [] == post[1..];
      NoParenNoAny([]);
    }
  }

  lemma {:induction false} AnyOfArgs(args: seq<Cfg>)
    requires forall a :: a in args ==> WellFormed(a)
    ensures MentionsAny(ShowArgs(args)) <==> exists a :: a in args && HasAny(a)
    decreases args, 1
  {
    hide WellFormed, MentionsAny, HasAny;
    if args == [] {
      NoParenNoAny([]);
    } else {
      assert args[0] in args;
      AnyOfText(args[0]);
      assert forall a :: a in args <==> a == args[0] || a in args[1..];
      if |args| > 1 {
        AnyOfArgs(args[1..]);
        var head, tail := Show(args[0]), ShowArgs(args[1..]);
        assert head + "," + tail == head + [','] + tail;
        AnyAround(head, ',', tail);
      }
    }
  }

  lemma BareEnds(c: Cfg)
    requires WellFormed(c) && !c.Spaced?
    ensures var s := Show(c); s != [] && !IsSpace(s[0]) && !IsSpace(s[|s| - 1])
    ensures StartsWith(Show(c), "all(") <==> c.All?
  {
    hide IsSpace, FindNames, IsNameChar;
    SpacesAre();
    var s := Show(c);
    match c {
      case Feature(name) =>
        assert s[0] == 'f' && s[|s| - 1] == '"';
        assert s[..4][0] == 'f';
      case Other(text) =>
        assert forall i :: 0 <= i < |text| ==> text[i] != '(';
        assert |text| >= 4 ==> text[..4][3] == text[3];
      case All(args) =>
        assert s[..4] == "all(" && s[0] == 'a' && s[|s| - 1] == ')';
      case Any(args) =>
        assert s[..4] == "any(" && s[0] == 'a' && s[|s| - 1] == ')';
      case Not(arg) =>
        assert s[..4] == "not(" && s[0] == 'n' && s[|s| - 1] == ')';
    }
  }

  lemma {:induction false} BareKeeps(c: Cfg)
    requires WellFormed(c)
    ensures WellFormed(Bare(c)) && Atoms(Bare(c)) == Atoms(c) && HasAny(Bare(c)) == HasAny(c)
  {
    if c.Spaced? {
      BareKeeps(c.inner);
    }
  }

  /** The white space around a condition, all of it. */
  lemma {:induction false} ShowBare(c: Cfg) returns (pre: string, post: string)
    requires WellFormed(c)
    ensures AllSpace(pre) && AllSpace(post) && Show(c) == pre + Show(Bare(c)) + post
  {
    hide IsSpace, Show;
    if c.Spaced? {
      var a, b := ShowBare(c.inner);
      pre, post := c.pre + a, b + c.post;
      ShowSpaced(c);
      Regrouped(c.pre, a, Show(Bare(c)), b, c.post);
    } else {
      pre, post := [], [];
      assert [] + Show(c) + [] == Show(c);
    }
  }

  lemma ShowSpaced(c: Cfg)
    requires c.Spaced?
    ensures Show(c) == c.pre + Show(c.inner) + c.post
  {
  }

  lemma Regrouped(a: string, b: string, core: string, d: string, e: string)
    ensures a + (b + core + d) + e == (a + b) + core + (d + e)
  {
  }

  lemma TextEnds(c: Cfg)
    requires WellFormed(c)
    ensures Strip(Show(c)) == Show(Bare(c))
    ensures StartsWith(Show(Bare(c)), "all(") <==> Bare(c).All?
  {
    hide Strip, FindNames, IsNameChar, IsSpace, Show, StartsWith;
    var pre, post := ShowBare(c);
    BareKeeps(c);
    BareEnds(Bare(c));
    StripPadded(pre, Show(Bare(c)), post);
  }

  /** The whole condition is taken as one alternative. */
  predicate ReadWhole(c: Cfg) {
    Bare(c).All? && !HasAny(c)
  }

  /** What `cfg_alternatives` reads off a condition, however spaced: all its features at once for an
      `all` without any `any`, each of them alone otherwise, and nothing if it names none. */
  lemma AlternativesOfText(c: Cfg)
    requires WellFormed(c)
    ensures Alternatives(Show(c)) ==
            if Atoms(c) == [] then []
            else if ReadWhole(c) then [set n | n in Atoms(c)]
            else Singletons(Atoms(c))
  {
    hide Strip, FindNames, MentionsAny, Show, Atoms, HasAny, WellFormed, StartsWith, Bare;
    NamesOfText(c);
    BareKeeps(c);
    AnyOfText(Bare(c));
    TextEnds(c);
  }
}

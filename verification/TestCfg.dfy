/** `check-unwrap.py`, `_is_test_cfg`: which `#[cfg(...)]` lines only compile in a test build. */
module TestCfg {
  import opened Text

  // ---------------------------------------------------------------- the check

  predicate EndsWith(s: string, suffix: string) {
    |suffix| <= |s| && s[|s| - |suffix|..] == suffix
  }

  function Deepened(depth: int, c: char): int {
    if c == '(' then depth + 1 else if c == ')' then depth - 1 else depth
  }

  /** The arguments of a call: cut at the commas that no parenthesis encloses, and stripped. */
  function Split(s: string, depth: int, cur: string): seq<string> {
    if s == [] then [Strip(cur)]
    else if s[0] == ',' && depth == 0 then [Strip(cur)] + Split(s[1..], depth, "")
    else Split(s[1..], Deepened(depth, s[0]), cur + [s[0]])
  }

  method SplitLoop(s: string) returns (args: seq<string>)
    ensures args == Split(s, 0, "")
  {
    var depth, cur := 0, "";
    args := [];
    for i := 0 to |s|
      invariant args + Split(s[i..], depth, cur) == Split(s, 0, "")
    {
      var ch := s[i];
      assert s[i..][1..] == s[i + 1..];
      if ch == ',' && depth == 0 {
        assert args + ([Strip(cur)] + Split(s[i + 1..], depth, "")) ==
               (args + [Strip(cur)]) + Split(s[i + 1..], depth, "");
        args := args + [Strip(cur)];
        cur := "";
        continue;
      }
      if ch == '(' {
        depth := depth + 1;
      } else if ch == ')' {
        depth := depth - 1;
      }
      cur := cur + [ch];
    }
    assert args + Split([], depth, cur) == args + [Strip(cur)];
    args := args + [Strip(cur)];
  }

  /** Whether the text between the outer parentheses is `test`, or an `all` with `test` as an argument. */
  predicate IsTestCondition(inner: string) {
    || inner == "test"
    || (StartsWith(inner, "all(") && EndsWith(inner, ")") && |inner| >= 5 &&
        "test" in Split(inner[4..|inner| - 1], 0, ""))
  }

  const OPEN := "#[cfg("
  const CLOSE := ")]"

  predicate IsTestCfg(line: string) {
    && StartsWith(line, OPEN) && EndsWith(line, CLOSE) && |line| >= 8
    && IsTestCondition(Strip(line[6..|line| - 2]))
  }

  method CheckTestCfg(stripped: string) returns (exempt: bool)
    ensures exempt == IsTestCfg(stripped)
  {
    hide Split, Strip;
    if !(StartsWith(stripped, OPEN) && EndsWith(stripped, CLOSE)) {
      return false;
    }
    OutsideOverlap(stripped);
    var inner := Strip(stripped[6..|stripped| - 2]);
    if inner == "test" {
      return true;
    }
    if StartsWith(inner, "all(") && EndsWith(inner, ")") {
      AllOverlap(inner);
      var args := SplitLoop(inner[4..|inner| - 1]);
      return "test" in args;
    }
    return false;
  }

  /** The opening and the closing of an attribute cannot overlap. */
  lemma OutsideOverlap(s: string)
    requires StartsWith(s, OPEN) && EndsWith(s, CLOSE)
    ensures |s| >= 8
  {
    assert s[..6][5] == s[5];
    assert s[|s| - 2..][0] == s[|s| - 2] == ')';
    assert s[|s| - 2..][1] == s[|s| - 1] == ']';
  }

  lemma AllOverlap(s: string)
    requires StartsWith(s, "all(") && EndsWith(s, ")")
    ensures |s| >= 5
  {
    assert s[..4][3] == s[3] == '(';
    assert s[|s| - 1..][0] == s[|s| - 1] == ')';
  }

  // ---------------------------------------------------------------- conditions

  /** A cfg condition with the white space around it, as written. */
  datatype Cond =
    | Atom(pre: string, text: string, post: string)
    | Call(pre: string, word: Word, args: seq<Cond>, post: string)

  datatype Word = All | Any | Not

  function Spelled(w: Word): (s: string)
    ensures |s| == 3
  {
    match w
    case All => "all"
    case Any => "any"
    case Not => "not"
  }

  /** Whether the condition holds, given which atoms do. `not` denies its one argument. */
  predicate Holds(c: Cond, env: string -> bool) {
    match c
    case Atom(_, text, _) => env(text)
    case Call(_, word, args, _) =>
      match word
      case All => forall a :: a in args ==> Holds(a, env)
      case Any => exists a :: a in args && Holds(a, env)
      case Not => |args| == 1 && !Holds(args[0], env)
  }

  predicate AtomText(s: string) {
    && s != [] && !IsSpace(s[0]) && !IsSpace(s[|s| - 1])
    && forall i :: 0 <= i < |s| ==> s[i] != '(' && s[i] != ')' && s[i] != ','
  }

  predicate WellFormed(c: Cond) {
    && AllSpace(c.pre) && AllSpace(c.post)
    && match c
       case Atom(_, text, _) => AtomText(text)
       case Call(_, word, args, _) => (word.Not? ==> |args| == 1) && forall a :: a in args ==> WellFormed(a)
  }

  function Core(c: Cond): string
    decreases c, 1
  {
    match c
    case Atom(_, text, _) => text
    case Call(_, word, args, _) => Spelled(word) + "(" + Args(args) + ")"
  }

  function Written(c: Cond): string
    decreases c, 2
  {
    c.pre + Core(c) + c.post
  }

  function Args(args: seq<Cond>): string
    decreases args, 3
  {
    if args == [] then []
    else if |args| == 1 then Written(args[0])
    else Written(args[0]) + "," + Args(args[1..])
  }

  predicate IsTest(c: Cond) {
    c.Atom? && c.text == "test"
  }

  /** `test` itself, or an `all` with `test` among its own arguments. */
  predicate BareTest(c: Cond) {
    IsTest(c) || (c.Call? && c.word.All? && exists a :: a in c.args && IsTest(a))
  }

  // ---------------------------------------------------------------- stripping

  lemma SpacesAre()
    ensures !IsSpace('a') && !IsSpace('n') && !IsSpace('(') && !IsSpace(')') && !IsSpace(',')
  {
  }

  lemma CoreEnds(c: Cond)
    requires WellFormed(c)
    ensures Core(c) != [] && !IsSpace(Core(c)[0]) && !IsSpace(Core(c)[|Core(c)| - 1])
    ensures c.Call? ==> Core(c)[|Core(c)| - 1] == ')'
  {
    hide IsSpace, Args;
    SpacesAre();
    match c {
      case Atom(_, text, _) =>
      case Call(_, word, args, _) =>
        assert Core(c)[0] == Spelled(word)[0];
    }
  }

  /** Stripping a condition as written takes off exactly the white space around it. */
  lemma StripWritten(c: Cond)
    requires WellFormed(c)
    ensures Strip(Written(c)) == Core(c)
  {
    hide Core, Strip, IsSpace;
    CoreEnds(c);
    StripPadded(c.pre, Core(c), c.post);
  }

  lemma CoreIsTest(c: Cond)
    requires WellFormed(c)
    ensures Core(c) == "test" <==> IsTest(c)
  {
    hide Args, IsSpace;
    CoreEnds(c);
    if c.Call? {
      assert Core(c)[|Core(c)| - 1] == ')';
    }
  }

  // ---------------------------------------------------------------- splitting

  predicate Inert(c: char) {
    c != '(' && c != ')' && c != ','
  }

  /** Text without parentheses or commas only adds to the current argument. */
  lemma {:induction false} SplitInert(s: string, rest: string, depth: int, cur: string)
    requires forall i :: 0 <= i < |s| ==> Inert(s[i])
    ensures Split(s + rest, depth, cur) == Split(rest, depth, cur + s)
  {
    if s == [] {
      assert s + rest == rest && cur + s == cur;
    } else {
      assert (s + rest)[1..] == s[1..] + rest;
      assert (cur + [s[0]]) + s[1..] == cur + s;
      SplitInert(s[1..], rest, depth, cur + [s[0]]);
    }
  }

  /** A character that does not cut. */
  lemma SplitChar(c: char, rest: string, depth: int, cur: string)
    requires c != ',' || depth != 0
    ensures Split([c] + rest, depth, cur) == Split(rest, Deepened(depth, c), cur + [c])
  {
    assert ([c] + rest)[1..] == rest;
  }

  lemma SpaceIsInert(s: string)
    requires AllSpace(s)
    ensures forall i :: 0 <= i < |s| ==> Inert(s[i])
  {
    hide IsSpace;
    SpacesAre();
  }

  lemma SpelledIsInert(w: Word)
    ensures forall i :: 0 <= i < |Spelled(w)| ==> Inert(Spelled(w)[i])
  {
  }

  /** A whole condition is never cut, at whatever depth. */
  lemma {:induction false} SplitWritten(c: Cond, rest: string, depth: int, cur: string)
    requires WellFormed(c) && depth >= 0
    ensures Split(Written(c) + rest, depth, cur) == Split(rest, depth, cur + Written(c))
    decreases c, 2
  {
    hide Split, IsSpace, Core;
    SpaceIsInert(c.pre);
    SpaceIsInert(c.post);
    assert Written(c) + rest == c.pre + (Core(c) + (c.post + rest));
    SplitInert(c.pre, Core(c) + (c.post + rest), depth, cur);
    SplitCore(c, c.post + rest, depth, cur + c.pre);
    SplitInert(c.post, rest, depth, cur + c.pre + Core(c));
    assert cur + c.pre + Core(c) + c.post == cur + Written(c);
  }

  lemma {:induction false} SplitCore(c: Cond, rest: string, depth: int, cur: string)
    requires WellFormed(c) && depth >= 0
    ensures Split(Core(c) + rest, depth, cur) == Split(rest, depth, cur + Core(c))
    decreases c, 1
  {
    hide Split, IsSpace, Args;
    match c {
      case Atom(_, text, _) =>
        SplitInert(text, rest, depth, cur);
      case Call(_, word, args, _) =>
        var w, a := Spelled(word), Args(args);
        SpelledIsInert(word);
        assert Core(c) + rest == w + (['('] + (a + ([')'] + rest)));
        SplitInert(w, ['('] + (a + ([')'] + rest)), depth, cur);
        SplitChar('(', a + ([')'] + rest), depth, cur + w);
        SplitInside(args, [')'] + rest, depth + 1, cur + w + ['(']);
        SplitChar(')', rest, depth + 1, cur + w + ['('] + a);
        assert cur + w + ['('] + a + [')'] == cur + Core(c);
    }
  }

  /** Inside parentheses no comma cuts. */
  lemma {:induction false} SplitInside(args: seq<Cond>, rest: string, depth: int, cur: string)
    requires (forall a :: a in args ==> WellFormed(a)) && depth >= 1
    ensures Split(Args(args) + rest, depth, cur) == Split(rest, depth, cur + Args(args))
    decreases args, 3
  {
    hide Split, IsSpace, Written;
    if args == [] {
      assert Args(args) + rest == rest && cur + Args(args) == cur;
    } else if |args| == 1 {
      SplitWritten(args[0], rest, depth, cur);
    } else {
      var first, others := Written(args[0]), Args(args[1..]);
      assert Args(args) + rest == first + ([','] + (others + rest));
      SplitWritten(args[0], [','] + (others + rest), depth, cur);
      SplitChar(',', others + rest, depth, cur + first);
      SplitInside(args[1..], rest, depth, cur + first + [',']);
      assert cur + first + [','] + others == cur + Args(args);
    }
  }

  /** At depth zero the arguments come apart, each stripped of the white space around it. */
  lemma {:induction false} SplitArgs(args: seq<Cond>)
    requires (forall a :: a in args ==> WellFormed(a)) && args != []
    ensures var parts := Split(Args(args), 0, "");
            |parts| == |args| && forall i :: 0 <= i < |args| ==> parts[i] == Core(args[i])
  {
    hide Split, Strip, IsSpace, Written, Core;
    var first := Written(args[0]);
    StripWritten(args[0]);
    if |args| == 1 {
      assert first + "" == first;
      SplitWritten(args[0], "", 0, "");
      SplitDone(first);
    } else {
      var others := Args(args[1..]);
      SplitArgs(args[1..]);
      assert Args(args) == first + ([','] + others);
      SplitWritten(args[0], [','] + others, 0, "");
      SplitCut(others, first);
      forall i | 0 <= i < |args|
        ensures Split(Args(args), 0, "")[i] == Core(args[i])
      {
        assert i > 0 ==> args[i] == args[1..][i - 1];
      }
    }
  }

  lemma SplitDone(cur: string)
    ensures Split("", 0, "" + cur) == [Strip(cur)]
  {
    assert "" + cur == cur;
  }

  lemma SplitCut(rest: string, cur: string)
    ensures Split([','] + rest, 0, "" + cur) == [Strip(cur)] + Split(rest, 0, "")
  {
    assert "" + cur == cur;
    assert ([','] + rest)[1..] == rest;
  }

  // ---------------------------------------------------------------- main results

  lemma CallCore(c: Cond)
    requires c.Call?
    ensures EndsWith(Core(c), ")") && |Core(c)| >= 5 && Core(c)[4..|Core(c)| - 1] == Args(c.args)
    ensures StartsWith(Core(c), "all(") <==> c.word.All?
  {
    hide Args;
    var s, a := Core(c), Args(c.args);
    assert s[..4] == Spelled(c.word) + "(";
    assert s[..4][0] == Spelled(c.word)[0] && s[..4][1] == Spelled(c.word)[1];
    assert s[|s| - 1..] == ")";
  }

  lemma AtomCore(c: Cond)
    requires WellFormed(c) && c.Atom?
    ensures !StartsWith(Core(c), "all(")
  {
    hide IsSpace;
    assert |c.text| >= 4 ==> c.text[..4][3] == c.text[3];
  }

  lemma ConditionIff(c: Cond)
    requires WellFormed(c)
    ensures IsTestCondition(Core(c)) <==> BareTest(c)
  {
    hide Split, Core, IsSpace, Args;
    CoreIsTest(c);
    if c.Call? {
      CallCore(c);
      if c.word.All? {
        ArgsHoldTest(c.args);
      }
    } else {
      AtomCore(c);
    }
  }

  lemma ArgsHoldTest(args: seq<Cond>)
    requires forall a :: a in args ==> WellFormed(a)
    ensures "test" in Split(Args(args), 0, "") <==> exists a :: a in args && IsTest(a)
  {
    hide Split, Core, IsSpace;
    if args == [] {
      NothingToSplit();
    } else {
      hide Args;
      SplitArgs(args);
      var parts := Split(Args(args), 0, "");
      forall i | 0 <= i < |args|
        ensures parts[i] == "test" <==> IsTest(args[i])
      {
        CoreIsTest(args[i]);
      }
    }
  }

  lemma NothingToSplit()
    ensures "test" !in Split("", 0, "")
  {
  }

  /** For every condition over `all`, `any` and `not`, however it is spaced: the line is taken for a
      test item exactly when the condition is `test` or an `all` with `test` as a direct argument. */
  lemma TestCfgIff(c: Cond)
    requires WellFormed(c)
    ensures IsTestCfg("#[cfg(" + Written(c) + ")]") <==> BareTest(c)
  {
    hide Strip, Split, Written, Core, IsSpace, IsTestCondition;
    var line := OPEN + Written(c) + CLOSE;
    assert line[..6] == OPEN && line[|line| - 2..] == CLOSE;
    assert line[6..|line| - 2] == Written(c);
    StripWritten(c);
    ConditionIff(c);
  }

  /** No production code is exempted: the item cannot exist in a build without `test`. */
  lemma TestCfgIsSound(c: Cond, env: string -> bool)
    requires WellFormed(c) && IsTestCfg("#[cfg(" + Written(c) + ")]") && !env("test")
    ensures !Holds(c, env)
  {
    hide Written, IsTestCfg, WellFormed;
    TestCfgIff(c);
    if c.Call? {
      var a :| a in c.args && IsTest(a);
      assert !Holds(a, env);
    }
  }

  /** The converse fails, deliberately: `all(all(test))` also needs `test`, and is scanned as production. */
  lemma TestCfgIsNarrow()
    ensures var c := Call("", All, [Call("", All, [Atom("", "test", "")], "")], "");
            && WellFormed(c) && !IsTestCfg("#[cfg(" + Written(c) + ")]")
            && forall env: string -> bool :: Holds(c, env) ==> env("test")
  {
    hide IsTestCfg, Written;
    var t := Atom("", "test", "");
    var inner := Call("", All, [t], "");
    var c := Call("", All, [inner], "");
    assert AtomText(t.text) by {
      assert !IsSpace('t');
    }
    assert WellFormed(t);
    assert WellFormed(inner);
    TestCfgIff(c);
    forall env: string -> bool | Holds(c, env)
      ensures env("test")
    {
      assert inner in c.args && t in inner.args;
      assert Holds(inner, env);
      assert Holds(t, env);
    }
  }
}

/** Which lines are taken for test attributes, said of the line's text: how many parentheses are open
    before a comma decides whether it separates two arguments. */
module TestCfgText {
  import opened Text
  import opened TestCfg

  /** How many more parentheses open than close in the first `k` characters. */
  function Level(s: string, k: nat): int
    requires k <= |s|
  {
    multiset(s[..k])['('] as int - multiset(s[..k])[')']
  }

  /** No comma in the argument separates. */
  predicate IsArgument(raw: string) {
    forall i :: 0 <= i < |raw| && raw[i] == ',' ==> Level(raw, i) != 0
  }

  /** Arguments as written: none can be cut further, and each comma between them stands outside all
      parentheses. */
  predicate AreArguments(raws: seq<string>) {
    && raws != [] && (forall k :: 0 <= k < |raws| ==> IsArgument(raws[k]))
    && forall k :: 0 <= k < |raws| - 1 ==> Level(raws[k], |raws[k]|) == 0
  }

  predicate AreStripped(args: seq<string>, raws: seq<string>) {
    |args| == |raws| && forall k :: 0 <= k < |raws| ==> args[k] == Strip(raws[k])
  }

  lemma LevelStep(s: string, k: nat)
    requires k < |s|
    ensures Level(s, k + 1) == Deepened(Level(s, k), s[k])
  {
    assert s[..k + 1] == s[..k] + [s[k]];
  }

  lemma LevelStart(s: string)
    ensures Level(s, 0) == 0
  {
    assert s[..0] == [];
  }

  /** Reading an argument up to a place in it only deepens the level and keeps the text. */
  lemma {:induction false} ReadTo(raw: string, rest: string, i: nat)
    requires IsArgument(raw) && i <= |raw|
    ensures Split(raw + rest, 0, "") == Split((raw + rest)[i..], Level(raw, i), raw[..i])
  {
    hide Level, Strip;
    var s := raw + rest;
    if i == 0 {
      LevelStart(raw);
      assert s[0..] == s && raw[..0] == "";
    } else {
      ReadTo(raw, rest, i - 1);
      LevelStep(raw, i - 1);
      var tail := s[i - 1..];
      assert tail[0] == raw[i - 1] && tail[1..] == s[i..];
      assert raw[..i - 1] + [raw[i - 1]] == raw[..i];
    }
  }

  lemma ReadAll(raw: string, rest: string)
    requires IsArgument(raw)
    ensures Split(raw + rest, 0, "") == Split(rest, Level(raw, |raw|), raw)
  {
    hide Split, Level;
    ReadTo(raw, rest, |raw|);
    assert (raw + rest)[|raw|..] == rest && raw[..|raw|] == raw;
  }

  lemma {:induction false} SplitOfArguments(raws: seq<string>)
    requires AreArguments(raws)
    ensures AreStripped(Split(Join(",", raws), 0, ""), raws)
  {
    hide Level, Split, Strip, IsArgument;
    if |raws| == 1 {
      ReadAll(raws[0], "");
      AtTheEnd(raws[0], Level(raws[0], |raws[0]|));
      assert raws[0] + "" == raws[0];
    } else {
      var rest := Join(",", raws[1..]);
      SplitOfArguments(raws[1..]);
      ReadAll(raws[0], "," + rest);
      assert raws[0] + ("," + rest) == raws[0] + "," + rest;
      assert "" + raws[0] == raws[0];
      SplitCut(rest, raws[0]);
      assert Join(",", raws) == raws[0] + "," + rest;
      assert Split(Join(",", raws), 0, "") == [Strip(raws[0])] + Split(rest, 0, "");
      assert forall k :: 0 < k < |raws| ==> raws[k] == raws[1..][k - 1];
    }
  }

  lemma AtTheEnd(cur: string, depth: int)
    ensures Split("", depth, cur) == [Strip(cur)]
  {
    hide Strip;
  }

  /** The first comma outside all parentheses. */
  lemma {:induction false} FirstCut(s: string, i: nat) returns (k: nat)
    requires i <= |s| && forall j :: 0 <= j < i && s[j] == ',' ==> Level(s, j) != 0
    ensures k <= |s| && forall j :: 0 <= j < k && s[j] == ',' ==> Level(s, j) != 0
    ensures k < |s| ==> s[k] == ',' && Level(s, k) == 0
    decreases |s| - i
  {
    hide Level;
    if i == |s| || (s[i] == ',' && Level(s, i) == 0) {
      k := i;
    } else {
      k := FirstCut(s, i + 1);
    }
  }

  lemma LevelOfPrefix(s: string, k: nat)
    requires k <= |s|
    ensures forall i :: 0 <= i <= k ==> Level(s[..k], i) == Level(s, i)
  {
    forall i | 0 <= i <= k
      ensures s[..k][..i] == s[..i]
    {
    }
  }

  lemma {:induction false} FindArguments(s: string) returns (raws: seq<string>)
    ensures AreArguments(raws) && Join(",", raws) == s
    decreases |s|
  {
    hide Level;
    var k := FirstCut(s, 0);
    if k == |s| {
      raws := [s];
    } else {
      var more := FindArguments(s[k + 1..]);
      raws := [s[..k]] + more;
      LevelOfPrefix(s, k);
      assert IsArgument(s[..k]);
      assert raws[1..] == more && s == s[..k] + "," + s[k + 1..];
      assert forall j :: 0 < j < |raws| ==> raws[j] == more[j - 1];
    }
  }

  /** For every text, the arguments are what stands between the commas outside all parentheses. */
  lemma SplitIff(s: string, args: seq<string>)
    ensures Split(s, 0, "") == args <==>
            exists raws :: AreArguments(raws) && Join(",", raws) == s && AreStripped(args, raws)
  {
    hide Split, AreArguments, Join, Strip;
    var raws := FindArguments(s);
    SplitOfArguments(raws);
    forall other | AreArguments(other) && Join(",", other) == s && AreStripped(args, other)
      ensures Split(s, 0, "") == args
    {
      SplitOfArguments(other);
    }
  }

  /** An `all` one of whose arguments is `test`. */
  predicate AllWithTest(inner: string, raws: seq<string>) {
    && inner == "all(" + Join(",", raws) + ")" && AreArguments(raws)
    && exists k :: 0 <= k < |raws| && Strip(raws[k]) == "test"
  }

  lemma ConditionTextIff(inner: string)
    ensures IsTestCondition(inner) <==> inner == "test" || exists raws :: AllWithTest(inner, raws)
  {
    hide Split, AreArguments, Join, Strip;
    if StartsWith(inner, "all(") && EndsWith(inner, ")") && |inner| >= 5 {
      var body := inner[4..|inner| - 1];
      assert inner == "all(" + body + ")";
      var raws := FindArguments(body);
      SplitOfArguments(raws);
      if "test" in Split(body, 0, "") {
        var k :| 0 <= k < |raws| && Split(body, 0, "")[k] == "test";
        assert AllWithTest(inner, raws);
      }
    }
    forall raws | AllWithTest(inner, raws)
      ensures IsTestCondition(inner)
    {
      var body := Join(",", raws);
      assert inner[..4] == "all(" && inner[|inner| - 1..] == ")" && inner[4..|inner| - 1] == body;
      SplitOfArguments(raws);
      var k :| 0 <= k < |raws| && Strip(raws[k]) == "test";
      assert Split(body, 0, "")[k] == "test";
    }
  }

  /** The line is the attribute around this condition. */
  predicate IsAttribute(line: string, pre: string, inner: string, post: string) {
    line == "#[cfg(" + pre + inner + post + ")]" && IsPadded(pre + inner + post, pre, inner, post)
  }

  /** For every line: it is taken for a test attribute exactly when it is `#[cfg(...)]` around `test`, or
      around an `all` one of whose arguments is `test`, with any white space. */
  lemma TestCfgTextIff(line: string)
    ensures IsTestCfg(line) <==>
            exists pre, inner, post ::
              IsAttribute(line, pre, inner, post) && (inner == "test" || exists raws :: AllWithTest(inner, raws))
  {
    hide IsTestCondition, Strip, IsPadded, AllWithTest;
    if IsTestCfg(line) {
      var body := line[6..|line| - 2];
      var inner := Strip(body);
      StripIff(body, inner);
      var pre, post :| IsPadded(body, pre, inner, post);
      PaddedIs(body, pre, inner, post);
      assert line == "#[cfg(" + body + ")]";
      assert "#[cfg(" + body + ")]" == "#[cfg(" + pre + inner + post + ")]";
      assert IsAttribute(line, pre, inner, post);
      ConditionTextIff(inner);
    }
    forall pre, inner, post | IsAttribute(line, pre, inner, post) &&
      (inner == "test" || exists raws :: AllWithTest(inner, raws))
      ensures IsTestCfg(line)
    {
      var body := pre + inner + post;
      assert line == "#[cfg(" + body + ")]";
      assert line[..6] == OPEN && line[|line| - 2..] == CLOSE && line[6..|line| - 2] == body;
      StripIff(body, inner);
      ConditionTextIff(inner);
    }
  }

  lemma PaddedIs(s: string, pre: string, r: string, post: string)
    requires IsPadded(s, pre, r, post)
    ensures s == pre + r + post
  {
  }
}

/** `check-unwrap.py`, the per-file loop: which lines belong to a test item. The lines are given with
    comments and literals already removed. */
module TestScopes {
  import opened Text
  import opened TestCfg

  function CountOf(s: string, c: char): nat {
    if s == [] then 0 else (if s[0] == c then 1 else 0) + CountOf(s[1..], c)
  }

  /** By how much a line deepens the nesting of braces. */
  function Change(code: string): int {
    CountOf(code, '{') - CountOf(code, '}')
  }

  /** The line holds something other than an attribute: an item that a pending attribute annotates. */
  predicate StartsItem(code: string) {
    var stripped := Strip(code);
    stripped != [] && !StartsWith(stripped, "#[")
  }

  /** The item has a body: a module, or a line that opens more braces than it closes. */
  predicate HasBody(code: string) {
    var stripped := Strip(code);
    StartsWith(stripped, "mod ") || StartsWith(stripped, "pub mod ") || Change(code) > 0
  }

  predicate IsTestAttribute(code: string) {
    IsTestCfg(Strip(code))
  }

  lemma {:induction false} CountIs(s: string, c: char)
    ensures CountOf(s, c) == multiset(s)[c]
  {
    if s != [] {
      CountIs(s[1..], c);
      assert s == [s[0]] + s[1..];
      assert multiset(s) == multiset{s[0]} + multiset(s[1..]);
    }
  }

  /** A line starts an item exactly when, white space aside, it holds something that is no attribute. */
  lemma StartsItemIff(code: string)
    ensures StartsItem(code) <==>
            exists pre, item, post ::
              IsPadded(code, pre, item, post) && item != "" && !(exists rest :: item == "#[" + rest)
  {
    hide Strip, IsSpace, IsPadded;
    var core := Strip(code);
    StripIff(code, core);
    StartsIff(core, "#[");
    forall pre, item, post | IsPadded(code, pre, item, post)
      ensures item == core
    {
      StripIff(code, item);
    }
  }

  lemma StartsIff(s: string, prefix: string)
    ensures StartsWith(s, prefix) <==> exists rest :: s == prefix + rest
  {
    if StartsWith(s, prefix) {
      assert s == prefix + s[|prefix|..];
    }
  }

  /** An item has a body exactly when it is a module or its line opens more braces than it closes. */
  lemma HasBodyIff(code: string)
    ensures HasBody(code) <==>
            || multiset(code)['{'] > multiset(code)['}']
            || exists pre, name, post ::
                 IsPadded(code, pre, "mod " + name, post) || IsPadded(code, pre, "pub mod " + name, post)
  {
    hide Strip, IsSpace, IsPadded, CountOf;
    CountIs(code, '{');
    CountIs(code, '}');
    var core := Strip(code);
    StripIff(code, core);
    StartsIff(core, "mod ");
    StartsIff(core, "pub mod ");
    if name :| core == "mod " + name {
      var pre, post :| IsPadded(code, pre, core, post);
      assert IsPadded(code, pre, "mod " + name, post);
    }
    if name :| core == "pub mod " + name {
      var pre, post :| IsPadded(code, pre, core, post);
      assert IsPadded(code, pre, "pub mod " + name, post);
    }
    forall pre, name, post | IsPadded(code, pre, "mod " + name, post) || IsPadded(code, pre, "pub mod " + name, post)
      ensures core == "mod " + name || core == "pub mod " + name
    {
      StripIff(code, "mod " + name);
      StripIff(code, "pub mod " + name);
    }
  }

  // ---------------------------------------------------------------- the loop

  /** The loop's state between two lines. */
  datatype Scope = Scope(depth: int, exempt: seq<int>, pending: bool)

  const OUTSIDE := Scope(0, [], false)

  /** Every exemption the depth has fallen back to or below is over, innermost first. */
  function Popped(exempt: seq<int>, depth: int): seq<int> {
    if exempt != [] && depth <= exempt[|exempt| - 1] then Popped(exempt[..|exempt| - 1], depth) else exempt
  }

  /** The exemptions open while the line is judged. */
  function Pushed(s: Scope, code: string): seq<int> {
    if s.pending && StartsItem(code) && HasBody(code) then s.exempt + [s.depth] else s.exempt
  }

  function Next(s: Scope, code: string): Scope {
    Scope(s.depth + Change(code),
          Popped(Pushed(s, code), s.depth + Change(code)),
          IsTestAttribute(code) || (s.pending && !StartsItem(code)))
  }

  predicate IsExempt(s: Scope, code: string) {
    Pushed(s, code) != [] || (s.pending && StartsItem(code) && !HasBody(code))
  }

  /** The state before line `i`. */
  function Before(lines: seq<string>, i: nat): Scope
    requires i <= |lines|
  {
    if i == 0 then OUTSIDE else Next(Before(lines, i - 1), lines[i - 1])
  }

  /** The loop over a file: which lines it exempts, and the depth it ends at. */
  method ScanFile(lines: seq<string>) returns (exempt: seq<bool>, depth: int)
    ensures |exempt| == |lines|
    ensures forall i :: 0 <= i < |lines| ==> exempt[i] == IsExempt(Before(lines, i), lines[i])
    ensures depth == Before(lines, |lines|).depth
  {
    hide StartsItem, HasBody, IsTestAttribute, Change, Popped, Before;
    BeforeFirst(lines);
    depth := 0;
    exempt := [];
    var stack: seq<int>, pending := [], false;
    for i := 0 to |lines|
      invariant |exempt| == i
      invariant forall j :: 0 <= j < i ==> exempt[j] == IsExempt(Before(lines, j), lines[j])
      invariant Scope(depth, stack, pending) == Before(lines, i)
    {
      var code := lines[i];
      var oneLine := false;
      if pending && StartsItem(code) {
        if HasBody(code) {
          stack := stack + [depth];
        } else {
          oneLine := true;
        }
        pending := false;
      }
      if IsTestAttribute(code) {
        pending := true;
      }
      exempt := exempt + [oneLine || stack != []];
      depth := depth + Change(code);
      stack := PopLoop(stack, depth);
      BeforeStep(lines, i);
    }
  }

  method PopLoop(exempt: seq<int>, depth: int) returns (stack: seq<int>)
    ensures stack == Popped(exempt, depth)
  {
    stack := exempt;
    while stack != [] && depth <= stack[|stack| - 1]
      invariant Popped(stack, depth) == Popped(exempt, depth)
      decreases |stack|
    {
      stack := stack[..|stack| - 1];
    }
  }

  lemma BeforeStep(lines: seq<string>, i: nat)
    requires i < |lines|
    ensures Before(lines, i + 1) == Next(Before(lines, i), lines[i])
  {
  }

  lemma BeforeFirst(lines: seq<string>)
    ensures Before(lines, 0) == OUTSIDE
  {
  }

  // ---------------------------------------------------------------- invariant

  ghost predicate Increasing(stack: seq<int>) {
    forall i, j :: 0 <= i < j < |stack| ==> stack[i] < stack[j]
  }

  /** The exemptions are strictly nested, and the innermost lies below the current depth. */
  ghost predicate Nested(s: Scope) {
    Increasing(s.exempt) && forall i :: 0 <= i < |s.exempt| ==> s.exempt[i] < s.depth
  }

  /** Popping keeps exactly the exemptions below the depth. */
  lemma {:induction false} PoppedKeeps(stack: seq<int>, depth: int)
    requires Increasing(stack)
    ensures Popped(stack, depth) <= stack
    ensures forall d :: d in Popped(stack, depth) <==> d in stack && d < depth
  {
    if stack != [] && depth <= stack[|stack| - 1] {
      var n := |stack| - 1;
      PoppedKeeps(stack[..n], depth);
      assert stack == stack[..n] + [stack[n]];
    }
  }

  lemma NextNested(s: Scope, code: string)
    requires Nested(s)
    ensures Nested(Next(s, code)) && Increasing(Pushed(s, code))
  {
    hide StartsItem, HasBody, IsTestAttribute, Change;
    var depth := s.depth + Change(code);
    PoppedKeeps(Pushed(s, code), depth);
    var left := Popped(Pushed(s, code), depth);
    forall i | 0 <= i < |left|
      ensures left[i] < depth
    {
      assert left[i] in left;
    }
  }

  /** After every line of every file. */
  lemma {:induction false} AlwaysNested(lines: seq<string>, i: nat)
    requires i <= |lines|
    ensures Nested(Before(lines, i))
  {
    hide Next;
    if i == 0 {
    } else {
      AlwaysNested(lines, i - 1);
      NextNested(Before(lines, i - 1), lines[i - 1]);
    }
  }

  // ---------------------------------------------------------------- what is exempt

  /** The brace depth before line `i`: every brace up to there counted. */
  function Depth(lines: seq<string>, i: nat): int
    requires i <= |lines|
  {
    if i == 0 then 0 else Depth(lines, i - 1) + Change(lines[i - 1])
  }

  /** A test attribute stands above line `k` with nothing but attributes and blank lines between. */
  ghost predicate Annotated(lines: seq<string>, k: nat)
    requires k <= |lines|
  {
    exists m :: 0 <= m < k && IsTestAttribute(lines[m]) && forall x :: m < x < k ==> !StartsItem(lines[x])
  }

  /** Line `k` is the first line of a test item with a body. */
  ghost predicate OpensTestItem(lines: seq<string>, k: nat)
    requires k < |lines|
  {
    Annotated(lines, k) && StartsItem(lines[k]) && HasBody(lines[k])
  }

  /** The depth has stayed above where line `k` started since line `k`, up to the start of line `i`. */
  ghost predicate Inside(lines: seq<string>, k: nat, i: nat)
    requires k <= i <= |lines|
  {
    forall m :: k < m <= i ==> Depth(lines, m) > Depth(lines, k)
  }

  /** The item opened at line `k` is still open before line `i`. */
  ghost predicate StillOpen(lines: seq<string>, k: int, i: nat)
    requires i <= |lines|
  {
    0 <= k < i && OpensTestItem(lines, k) && Inside(lines, k, i)
  }

  lemma {:induction false} DepthIs(lines: seq<string>, i: nat)
    requires i <= |lines|
    ensures Before(lines, i).depth == Depth(lines, i)
  {
    hide Change;
    if i > 0 {
      DepthIs(lines, i - 1);
    }
  }

  lemma {:induction false} PendingIs(lines: seq<string>, i: nat)
    requires i <= |lines|
    ensures Before(lines, i).pending <==> Annotated(lines, i)
  {
    hide StartsItem, HasBody, IsTestAttribute, Change;
    if i > 0 {
      PendingIs(lines, i - 1);
      AttributeStartsNoItem(lines[i - 1]);
      AnnotatedStep(lines, i - 1);
    }
  }

  lemma AttributeStartsNoItem(code: string)
    ensures IsTestAttribute(code) ==> !StartsItem(code)
  {
    hide Strip, IsTestCondition;
    var s := Strip(code);
    if IsTestAttribute(code) {
      assert s[..2] == s[..6][..2] == "#[";
    }
  }

  lemma AnnotatedStep(lines: seq<string>, i: nat)
    requires i < |lines|
    ensures Annotated(lines, i + 1) <==> IsTestAttribute(lines[i]) || (Annotated(lines, i) && !StartsItem(lines[i]))
  {
    hide StartsItem, IsTestAttribute;
    if Annotated(lines, i + 1) {
      var m :| 0 <= m < i + 1 && IsTestAttribute(lines[m]) && forall x :: m < x < i + 1 ==> !StartsItem(lines[x]);
      assert m == i || Annotated(lines, i);
    }
  }

  /** The stack holds the depths at which the test items that are still open started. */
  lemma {:induction false} StackIs(lines: seq<string>, i: nat, d: int)
    requires i <= |lines|
    ensures d in Before(lines, i).exempt <==> exists k :: StillOpen(lines, k, i) && Depth(lines, k) == d
  {
    hide StillOpen, Next, Nested, Depth;
    if i == 0 {
      NothingOpen(lines);
    } else {
      var s, code := Before(lines, i - 1), lines[i - 1];
      StackIs(lines, i - 1, d);
      AlwaysNested(lines, i - 1);
      NextKeeps(s, code, d);
      DepthIs(lines, i - 1);
      DepthIs(lines, i);
      OpensIff(lines, i - 1);
      StillOpenStep(lines, i - 1, d);
    }
  }

  lemma NothingOpen(lines: seq<string>)
    ensures forall k :: !StillOpen(lines, k, 0)
    ensures Before(lines, 0).exempt == []
  {
  }

  lemma NextKeeps(s: Scope, code: string, d: int)
    requires Nested(s)
    ensures d in Next(s, code).exempt <==> d in Pushed(s, code) && d < Next(s, code).depth
    ensures d in Pushed(s, code) <==> d in s.exempt || (s.pending && StartsItem(code) && HasBody(code) && d == s.depth)
  {
    hide StartsItem, HasBody, IsTestAttribute, Change;
    NextNested(s, code);
    PoppedKeeps(Pushed(s, code), s.depth + Change(code));
  }

  lemma OpensIff(lines: seq<string>, i: nat)
    requires i < |lines|
    ensures OpensTestItem(lines, i) <==> Before(lines, i).pending && StartsItem(lines[i]) && HasBody(lines[i])
  {
    hide StartsItem, HasBody, Annotated, Before;
    PendingIs(lines, i);
  }

  lemma StillOpenStep(lines: seq<string>, i: nat, d: int)
    requires i < |lines|
    ensures (exists k :: StillOpen(lines, k, i + 1) && Depth(lines, k) == d) <==>
            && (|| (exists k :: StillOpen(lines, k, i) && Depth(lines, k) == d)
                || (OpensTestItem(lines, i) && Depth(lines, i) == d))
            && d < Depth(lines, i + 1)
  {
    hide OpensTestItem, Depth;
    if k :| StillOpen(lines, k, i + 1) && Depth(lines, k) == d {
      assert k == i || StillOpen(lines, k, i);
    }
    if d < Depth(lines, i + 1) {
      if k :| StillOpen(lines, k, i) && Depth(lines, k) == d {
        assert StillOpen(lines, k, i + 1);
      }
      if OpensTestItem(lines, i) && Depth(lines, i) == d {
        assert StillOpen(lines, i, i + 1);
      }
    }
  }

  /** A line is exempt exactly when it is itself a test item of one line, or lies in a test item with
      a body: from the item's first line on, for as long as the braces stay deeper than they were
      before that line. Whatever other test items open and close in between makes no difference. */
  lemma ExemptIff(lines: seq<string>, j: nat)
    requires j < |lines|
    ensures IsExempt(Before(lines, j), lines[j]) <==>
            || (Annotated(lines, j) && StartsItem(lines[j]) && !HasBody(lines[j]))
            || exists k :: 0 <= k <= j && OpensTestItem(lines, k) && Inside(lines, k, j)
  {
    hide StartsItem, HasBody, Annotated, OpensTestItem, Before, Depth;
    var s := Before(lines, j);
    PendingIs(lines, j);
    OpensIff(lines, j);
    if k :| 0 <= k <= j && OpensTestItem(lines, k) && Inside(lines, k, j) {
      if k < j {
        assert StillOpen(lines, k, j);
        StackIs(lines, j, Depth(lines, k));
      }
    }
    if s.exempt != [] {
      StackIs(lines, j, s.exempt[0]);
      var k :| StillOpen(lines, k, j) && Depth(lines, k) == s.exempt[0];
      assert OpensTestItem(lines, k) && Inside(lines, k, j);
    }
    assert OpensTestItem(lines, j) ==> Inside(lines, j, j);
  }
}

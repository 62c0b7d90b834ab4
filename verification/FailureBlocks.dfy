/** What is printed about a failing test: its own output and none of the lines its harness prints. */
module FailureBlocks {
  import opened Options
  import opened Text
  import opened TestCount
  import opened TestReport

  /** A line of the text that the test printed itself. */
  predicate OwnLine(text: string, name: string, line: string) {
    line in SplitLines(text) && !IsHarnessLine(line, name)
  }

  /** A line with something on it that the test printed itself. */
  predicate Says(text: string, name: string, line: string) {
    OwnLine(text, name, line) && !AllSpace(line)
  }

  lemma {:induction false} KeptIff(lines: seq<string>, name: string, line: string)
    ensures line in WithoutHarness(lines, name) <==> line in lines && !IsHarnessLine(line, name)
  {
    hide IsHarnessLine;
    if lines != [] {
      var n := |lines| - 1;
      KeptIff(lines[..n], name, line);
      assert lines == lines[..n] + [lines[n]];
    }
  }

  predicate Blanks(lines: seq<string>) {
    forall k :: 0 <= k < |lines| ==> AllSpace(lines[k])
  }

  lemma {:induction false} FrontTrimmed(lines: seq<string>) returns (front: seq<string>)
    ensures lines == front + TrimFront(lines) && Blanks(front)
    ensures TrimFront(lines) != [] ==> !AllSpace(TrimFront(lines)[0])
  {
    hide Strip, AllSpace;
    if lines == [] {
      front := [];
    } else {
      StripEmptyIff(lines[0]);
      if Strip(lines[0]) == [] {
        var more := FrontTrimmed(lines[1..]);
        front := [lines[0]] + more;
        assert lines == [lines[0]] + lines[1..] == front + TrimFront(lines[1..]);
      } else {
        front := [];
        assert [] + lines == lines;
      }
    }
  }

  lemma {:induction false} BackTrimmed(lines: seq<string>) returns (back: seq<string>)
    ensures lines == TrimBack(lines) + back && Blanks(back)
    ensures TrimBack(lines) != [] ==>
            TrimBack(lines)[0] == lines[0] && !AllSpace(TrimBack(lines)[|TrimBack(lines)| - 1])
  {
    hide Strip, AllSpace;
    if lines == [] {
      back := [];
    } else {
      var n := |lines| - 1;
      StripEmptyIff(lines[n]);
      if Strip(lines[n]) == [] {
        var more := BackTrimmed(lines[..n]);
        back := more + [lines[n]];
        assert lines == lines[..n] + [lines[n]] == TrimBack(lines[..n]) + back;
      } else {
        back := [];
        assert lines + [] == lines;
      }
    }
  }

  /** A test's own output is its own lines in order, without blank ones at either end. */
  lemma OwnOutputIs(text: string, name: string) returns (front: seq<string>, back: seq<string>)
    ensures WithoutHarness(SplitLines(text), name) == front + OwnOutput(text, name) + back
    ensures Blanks(front) && Blanks(back)
    ensures var own := OwnOutput(text, name); own != [] ==> !AllSpace(own[0]) && !AllSpace(own[|own| - 1])
  {
    hide WithoutHarness, AllSpace, TrimFront, TrimBack, SplitLines;
    var kept := WithoutHarness(SplitLines(text), name);
    front := FrontTrimmed(kept);
    back := BackTrimmed(TrimFront(kept));
    assert front + (OwnOutput(text, name) + back) == front + OwnOutput(text, name) + back;
  }

  lemma OwnOutputIff(text: string, name: string, line: string)
    requires !AllSpace(line)
    ensures line in OwnOutput(text, name) <==> Says(text, name, line)
  {
    hide WithoutHarness, AllSpace, OwnOutput, IsHarnessLine, SplitLines;
    var front, back := OwnOutputIs(text, name);
    KeptIff(SplitLines(text), name, line);
    assert line !in front && line !in back;
    assert line in front + OwnOutput(text, name) + back <==> line in OwnOutput(text, name);
  }

  lemma OwnOutputEmptyIff(text: string, name: string)
    ensures OwnOutput(text, name) == [] <==> forall line :: !Says(text, name, line)
  {
    hide AllSpace, OwnOutput, OwnLine;
    var front, back := OwnOutputIs(text, name);
    var own := OwnOutput(text, name);
    if own != [] {
      OwnOutputIff(text, name, own[0]);
    } else {
      forall line
        ensures !Says(text, name, line)
      {
        if !AllSpace(line) {
          OwnOutputIff(text, name, line);
        }
      }
    }
  }

  lemma {:induction false} NotInIff(lines: seq<string>, body: seq<string>, line: string)
    ensures line in NotIn(lines, body) <==> line in lines && line !in body
  {
    if lines != [] {
      var n := |lines| - 1;
      NotInIff(lines[..n], body, line);
      assert lines == lines[..n] + [lines[n]];
    }
  }

  /** The failure's own text, or its message if that says nothing. */
  ghost predicate Reason(f: Failure, name: string, line: string) {
    Says(f.text, name, line) || ((forall other :: !Says(f.text, name, other)) && Says(f.message, name, line))
  }

  /** What stands under a failing test's heading, blank lines aside: the note about a timeout, the reason,
      and all that the test wrote to its output and its errors; and nothing else. */
  lemma FailureBodyIff(c: Case, line: string)
    requires c.failure.Some? && !AllSpace(line)
    ensures var name, f := c.name.GetOr("?"), c.failure.value;
            line in FailureBody(c) <==>
            || (f.timeout && line == TIMEOUT_NOTE)
            || Reason(f, name, line) || Says(c.systemOut, name, line) || Says(c.systemErr, name, line)
  {
    hide OwnOutput, AllSpace, NotIn, OwnLine;
    var name, f := c.name.GetOr("?"), c.failure.value;
    OwnOutputIff(f.text, name, line);
    OwnOutputIff(f.message, name, line);
    OwnOutputIff(c.systemOut, name, line);
    OwnOutputIff(c.systemErr, name, line);
    OwnOutputEmptyIff(f.text, name);
    var own := OwnOutput(f.text, name);
    var body := (if f.timeout then [TIMEOUT_NOTE] else [])
                + (if own != [] then own else OwnOutput(f.message, name))
                + OwnOutput(c.systemOut, name);
    NotInIff(OwnOutput(c.systemErr, name), body, line);
  }

  lemma OwnOutputIsOwn(text: string, name: string, line: string)
    requires line in OwnOutput(text, name)
    ensures !IsHarnessLine(line, name)
  {
    hide WithoutHarness, OwnOutput, IsHarnessLine, SplitLines, AllSpace;
    var front, back := OwnOutputIs(text, name);
    KeptIff(SplitLines(text), name, line);
    assert line in front + OwnOutput(text, name) + back;
  }

  lemma NoteIsNoHarness()
    ensures !StartsWith(TIMEOUT_NOTE, "test result: ")
  {
    assert TIMEOUT_NOTE[..13][0] == "cargo-nextest stopped this test: "[0];
  }

  /** No line of it is one the harness prints around a test, so none is taken for a result. */
  lemma FailureBodyIsOwn(c: Case, line: string)
    requires c.failure.Some? && line in FailureBody(c)
    ensures !StartsWith(line, "test result: ")
    ensures !IsHarnessLine(line, c.name.GetOr("?")) || (c.failure.value.timeout && line == TIMEOUT_NOTE)
  {
    hide OwnOutput, NotIn;
    var name, f := c.name.GetOr("?"), c.failure.value;
    NoteIsNoHarness();
    var own := OwnOutput(f.text, name);
    var body := (if f.timeout then [TIMEOUT_NOTE] else [])
                + (if own != [] then own else OwnOutput(f.message, name))
                + OwnOutput(c.systemOut, name);
    NotInIff(OwnOutput(c.systemErr, name), body, line);
    forall text | line in OwnOutput(text, name)
      ensures !IsHarnessLine(line, name)
    {
      OwnOutputIsOwn(text, name, line);
    }
  }

  // ---------------------------------------------------------------- the parts of a binary's text

  function VerdictLine(name: string, passed: bool): string {
    "test " + name + " ... " + if passed then "ok" else "FAILED"
  }

  lemma VerdictsDiffer(a: string, b: string, passedA: bool, passedB: bool)
    ensures VerdictLine(a, passedA) == VerdictLine(b, passedB) <==> a == b && passedA == passedB
  {
    var x, y := VerdictLine(a, passedA), VerdictLine(b, passedB);
    assert x[|x| - 1] == (if passedA then 'k' else 'D') && y[|y| - 1] == if passedB then 'k' else 'D';
    if x == y {
      assert a == x[5..5 + |a|] && b == y[5..5 + |b|];
    }
  }

  lemma CaseLineIs(c: Case)
    ensures CaseLine(c) == VerdictLine(c.name.GetOr("?"), c.failure.None?)
  {
    var name, verdict := c.name.GetOr("?"), if c.failure.None? then "ok" else "FAILED";
    assert "test" + " " + (name + " ... " + verdict) == "test " + name + " ... " + verdict;
  }

  lemma CaseLineIff(cases: seq<Case>, name: string, passed: bool)
    ensures VerdictLine(name, passed) in CaseLines(cases) <==>
            exists c :: c in cases && c.name.GetOr("?") == name && c.failure.None? == passed
  {
    hide CaseLine, VerdictLine;
    forall k | 0 <= k < |cases|
      ensures CaseLines(cases)[k] == VerdictLine(name, passed) <==>
              cases[k].name.GetOr("?") == name && cases[k].failure.None? == passed
    {
      CaseLineIs(cases[k]);
      VerdictsDiffer(cases[k].name.GetOr("?"), name, cases[k].failure.None?, passed);
    }
    if VerdictLine(name, passed) in CaseLines(cases) {
      var k :| 0 <= k < |cases| && CaseLines(cases)[k] == VerdictLine(name, passed);
      assert cases[k] in cases;
    }
    forall c | c in cases && c.name.GetOr("?") == name && c.failure.None? == passed
      ensures VerdictLine(name, passed) in CaseLines(cases)
    {
      var k :| 0 <= k < |cases| && cases[k] == c;
      assert CaseLines(cases)[k] == VerdictLine(name, passed);
    }
  }

  lemma {:induction false} BlocksAreNoVerdicts(failing: seq<Case>, part: string)
    requires (forall c :: c in failing ==> c.failure.Some?) && part in Blocks(failing)
    ensures part == "" || part[0] == '-'
  {
    hide FailureBody;
    var n := |failing| - 1;
    if part in Blocks(failing[..n]) {
      BlocksAreNoVerdicts(failing[..n], part);
    } else {
      var heading := "---- " + failing[n].name.GetOr("?") + " stdout ----";
      assert part == "" || part == Join("\n", [heading] + FailureBody(failing[n]));
      assert heading[0] == '-';
    }
  }

  lemma FailuresAreNoVerdicts(failing: seq<Case>, part: string)
    requires (forall c :: c in failing ==> c.failure.Some?) && part in FailureParts(failing)
    ensures part == "" || part[0] != 't'
  {
    hide Blocks;
    if part in Blocks(failing) {
      BlocksAreNoVerdicts(failing, part);
    }
  }

  lemma ResultEnds(passed: nat, failed: nat, seconds: string)
    ensures var line := ResultLine(passed, failed, seconds); line[|line| - 1] == 's'
  {
    hide ShowNat;
    var tail := ResultTail(failed, seconds);
    TailEnds(failed, seconds);
    var verdict := if failed == 0 then "ok." else "FAILED.";
    var line := ResultLine(passed, failed, seconds);
    assert line == "test" + " " + ("result:" + " " + (verdict + " " + (ShowNat(passed) + " " + tail)));
    assert line[|line| - 1] == tail[|tail| - 1];
  }

  lemma TailEnds(failed: nat, seconds: string)
    ensures var tail := ResultTail(failed, seconds); tail != "" && tail[|tail| - 1] == 's'
  {
    hide ShowNat;
    var front := ["passed; ", ShowNat(failed), " failed; ignored", " tests are not", " reported by",
                  " cargo-nextest;", " finished in ", seconds];
    ConcatLast(front, "s");
    assert front + ["s"] == ["passed; ", ShowNat(failed), " failed; ignored", " tests are not", " reported by",
                             " cargo-nextest;", " finished in ", seconds, "s"];
  }

  /** In the text of a binary a test is said to be ok, or FAILED, exactly when some case of that name
      passed, or failed. */
  lemma VerdictIff(suite: string, cases: seq<Case>, seconds: string, name: string, passed: bool)
    ensures VerdictLine(name, passed) in SuiteParts(suite, cases, seconds) <==>
            exists c :: c in cases && c.name.GetOr("?") == name && c.failure.None? == passed
  {
    hide CaseLines, FailureParts, ResultLine, Failing;
    CaseLineIff(cases, name, passed);
    var line, failing := VerdictLine(name, passed), Failing(cases);
    assert line[0] == 't' && line[|line| - 1] != 's';
    if line in FailureParts(failing) {
      FailuresAreNoVerdicts(failing, line);
    }
    ResultEnds(|cases| - |failing|, |failing|, seconds);
    assert Heading(suite)[0] == ' ';
  }
}

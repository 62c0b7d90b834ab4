/** The runs that the loop finds are exactly the chains of literals that stand in the file. */
module RunTheorems {
  import opened Bytes
  import opened IntegerRuns

  // ---------------------------------------------------------------- what is found is there

  /** Literal `k` of the run starts at `starts[k]`, and between the literals stand only separators. */
  ghost predicate Linked(b: bytes, starts: seq<nat>, run: seq<Literal>) {
    && |starts| == |run|
    && (forall k :: 0 <= k < |run| ==> Names(b, starts[k], run[k]))
    && (forall k :: 0 <= k < |run| - 1 ==> Follows(b, starts[k], starts[k + 1]))
  }

  ghost predicate Names(b: bytes, s: nat, l: Literal) {
    s < |b| && IsLiteral(b, s) && l == Literal(NumberValue(b, s), LineOf(b, s))
  }

  ghost predicate Follows(b: bytes, s: nat, next: nat) {
    s < |b| && NumberStarts(b, s) && SeparatorsEnd(b, NumberEnd(b, s)) == next
  }

  /** From the literal at `s` to offset `i` there are only separators. */
  ghost predicate OpenTo(b: bytes, s: nat, i: nat) {
    && s < |b| && NumberStarts(b, s) && NumberEnd(b, s) <= i <= |b|
    && forall k :: NumberEnd(b, s) <= k < i ==> IsSeparator(b[k])
  }

  /** An open run whose literals lead up to offset `i`. */
  ghost predicate LeadsTo(b: bytes, starts: seq<nat>, run: seq<Literal>, i: nat) {
    Linked(b, starts, run) && (run != [] ==> OpenTo(b, starts[|starts| - 1], i))
  }

  /** No number is cut in two at `i`. */
  predicate Edge(b: bytes, i: nat)
    requires i <= |b|
  {
    0 < i < |b| ==> !(b[i - 1] == MINUS && IsDigit(b[i]))
  }

  lemma {:induction false} SameLine(b: bytes, i: nat, j: nat)
    requires i <= j <= |b| && forall k :: i <= k < j ==> b[k] != NEWLINE
    ensures LineOf(b, j) == LineOf(b, i)
  {
    if i < j {
      SameLine(b, i, j - 1);
    }
  }

  lemma NumberBytes(b: bytes, i: nat)
    requires i < |b| && NumberStarts(b, i)
    ensures forall k :: i <= k < NumberEnd(b, i) ==> b[k] != NEWLINE && !IsSeparator(b[k])
    ensures forall k :: i < k < NumberEnd(b, i) ==> IsDigit(b[k])
    ensures IsDigit(b[NumberEnd(b, i) - 1])
    ensures Edge(b, NumberEnd(b, i)) && LineOf(b, NumberEnd(b, i)) == LineOf(b, i)
  {
    SameLine(b, i, NumberEnd(b, i));
  }

  lemma WordBytes(b: bytes, i: nat)
    requires i < |b| && NumberStarts(b, i)
    ensures var end := WordEnd(b, NumberEnd(b, i));
            && (forall k :: i < k < end ==> TouchesWord(b[k]))
            && Edge(b, end) && LineOf(b, end) == LineOf(b, i)
  {
    hide LineOf;
    NumberBytes(b, i);
    SameLine(b, NumberEnd(b, i), WordEnd(b, NumberEnd(b, i)));
  }

  lemma SeparatorsReach(b: bytes, s: nat, i: nat)
    requires s <= i < |b| && (forall k :: s <= k < i ==> IsSeparator(b[k])) && !IsSeparator(b[i])
    ensures SeparatorsEnd(b, s) == i
  {
    var e := SeparatorsEnd(b, s);
    assert e < |b| ==> !IsSeparator(b[e]);
  }

  lemma LinkOne(b: bytes, starts: seq<nat>, run: seq<Literal>, i: nat)
    requires LeadsTo(b, starts, run, i) && i < |b| && IsLiteral(b, i)
    ensures LeadsTo(b, starts + [i], run + [Literal(NumberValue(b, i), LineOf(b, i))], NumberEnd(b, i))
  {
    hide NumberValue, LineOf, SeparatorsEnd, IsSeparator, IsLiteral, NumberEnd, NumberStarts, Names, Follows, OpenTo;
    LiteralOpens(b, i);
    NumberBytes(b, i);
    var l := Literal(NumberValue(b, i), LineOf(b, i));
    assert Names(b, i, l) by {
      NamesHere(b, i);
    }
    if run != [] {
      OpenIsFollowed(b, starts[|starts| - 1], i);
    }
    Opens(b, i);
    LinkedAppend(b, starts, run, i, l);
  }

  lemma NamesHere(b: bytes, i: nat)
    requires i < |b| && IsLiteral(b, i)
    ensures Names(b, i, Literal(NumberValue(b, i), LineOf(b, i)))
  {
    hide IsLiteral;
  }

  lemma Opens(b: bytes, i: nat)
    requires i < |b| && NumberStarts(b, i)
    ensures OpenTo(b, i, NumberEnd(b, i))
  {
  }

  lemma OpenIsFollowed(b: bytes, s: nat, i: nat)
    requires OpenTo(b, s, i) && i < |b| && !IsSeparator(b[i])
    ensures Follows(b, s, i)
  {
    hide IsSeparator, NumberEnd, NumberStarts, SeparatorsEnd;
    SeparatorsReach(b, NumberEnd(b, s), i);
  }

  lemma LinkedAppend(b: bytes, starts: seq<nat>, run: seq<Literal>, i: nat, l: Literal)
    requires Linked(b, starts, run) && Names(b, i, l)
    requires run != [] ==> Follows(b, starts[|starts| - 1], i)
    ensures Linked(b, starts + [i], run + [l])
  {
    hide Names, Follows;
  }

  lemma SkipOne(b: bytes, starts: seq<nat>, run: seq<Literal>, i: nat)
    requires LeadsTo(b, starts, run, i) && i < |b| && IsSeparator(b[i])
    ensures LeadsTo(b, starts, run, i + 1)
  {
    hide Linked, NumberEnd, NumberStarts, IsSeparator;
  }

  lemma ClosedIs(run: seq<Literal>, r: seq<Literal>)
    requires r in Closed(run)
    ensures r == run && |r| >= RUN
  {
  }

  /** Every run found is a chain of literals with only separators between. */
  lemma {:induction false} RunIsLinked(
    b: bytes, i: nat, run: seq<Literal>, line: nat, starts: seq<nat>, r: seq<Literal>)
    returns (all: seq<nat>)
    requires i <= |b| && Edge(b, i) && line == LineOf(b, i) && LeadsTo(b, starts, run, i)
    requires r in Runs(b, i, run, line)
    ensures Linked(b, all, r) && |r| >= RUN
    decreases |b| - i
  {
    hide Runs, LeadsTo, Linked, NumberEnd, NumberStarts, WordEnd, LineOf, IsSeparator, Closed, Touches, NumberValue;
    LeadsLinked(b, starts, run, i);
    NothingLinked(b);
    if i == |b| {
      RunsEnd(b, run, line);
      ClosedIs(run, r);
      return starts;
    }
    RunsStep(b, i, run, line);
    if r in Closed(run) {
      ClosedIs(run, r);
      return starts;
    }
    if NumberStarts(b, i) {
      NumberBytes(b, i);
      WordBytes(b, i);
      if Touches(b, i) {
        all := RunIsLinked(b, WordEnd(b, NumberEnd(b, i)), [], line, [], r);
      } else if InRange(NumberValue(b, i)) {
        LiteralHere(b, i);
        LinkOne(b, starts, run, i);
        all := RunIsLinked(b, NumberEnd(b, i), run + [Literal(NumberValue(b, i), line)], line, starts + [i], r);
      } else {
        all := RunIsLinked(b, NumberEnd(b, i), [], line, [], r);
      }
    } else {
      OneByte(b, i);
      if IsSeparator(b[i]) {
        SkipOne(b, starts, run, i);
        all := RunIsLinked(b, i + 1, run, NextLine(line, b[i]), starts, r);
      } else {
        all := RunIsLinked(b, i + 1, [], NextLine(line, b[i]), [], r);
      }
    }
  }

  lemma LeadsLinked(b: bytes, starts: seq<nat>, run: seq<Literal>, i: nat)
    requires LeadsTo(b, starts, run, i)
    ensures Linked(b, starts, run)
  {
  }

  lemma NothingLinked(b: bytes)
    ensures forall i :: LeadsTo(b, [], [], i)
  {
  }

  lemma LiteralHere(b: bytes, i: nat)
    requires i < |b| && Edge(b, i) && NumberStarts(b, i) && !Touches(b, i) && InRange(NumberValue(b, i))
    ensures IsLiteral(b, i)
  {
  }

  lemma OneByte(b: bytes, i: nat)
    requires i < |b| && !NumberStarts(b, i)
    ensures Edge(b, i + 1) && LineOf(b, i + 1) == NextLine(LineOf(b, i), b[i])
  {
  }

  /** A stretch of a chain of literals is a chain. */
  lemma {:induction false} LinkedIsChain(b: bytes, starts: seq<nat>, run: seq<Literal>, k: nat, m: nat)
    requires Linked(b, starts, run) && k < |run| && k + m <= |run|
    ensures Chain(b, starts[k], Values(run[k..k + m]))
    decreases m
  {
    hide IsLiteral, NumberValue, SeparatorsEnd, NumberEnd, LineOf;
    if m > 0 {
      var values := Values(run[k..k + m]);
      assert Names(b, starts[k], run[k]);
      assert values[1..] == Values(run[k + 1..k + m]);
      if k + 1 < |run| {
        assert Follows(b, starts[k], starts[k + 1]);
        LinkedIsChain(b, starts, run, k + 1, m - 1);
      }
    }
  }

  // ---------------------------------------------------------------- what is there is found

  /** A literal is never read as the inside of something else: the loop comes to where it starts. */
  lemma {:induction false} ReachesLiteral(b: bytes, i: nat, run: seq<Literal>, line: nat, s: nat)
    returns (before: seq<seq<Literal>>, left: seq<Literal>)
    requires i <= s < |b| && IsLiteral(b, s) && line == LineOf(b, i)
    ensures Runs(b, i, run, line) == before + Runs(b, s, left, LineOf(b, s))
    decreases s - i
  {
    hide Runs, LineOf, NumberEnd, WordEnd, IsSeparator, NumberValue, Closed, NumberStarts, Touches, IsLiteral;
    if i == s {
      before, left := [], run;
      return;
    }
    RunsStep(b, i, run, line);
    if NumberStarts(b, i) {
      NumberBytes(b, i);
      WordBytes(b, i);
      LiteralIsNotInside(b, i, s);
      if Touches(b, i) {
        before, left := ReachesLiteral(b, WordEnd(b, NumberEnd(b, i)), [], line, s);
        before := Closed(run) + before;
      } else if InRange(NumberValue(b, i)) {
        before, left := ReachesLiteral(b, NumberEnd(b, i), run + [Literal(NumberValue(b, i), line)], line, s);
      } else {
        before, left := ReachesLiteral(b, NumberEnd(b, i), [], line, s);
        before := Closed(run) + before;
      }
    } else {
      OneByte(b, i);
      if IsSeparator(b[i]) {
        before, left := ReachesLiteral(b, i + 1, run, NextLine(line, b[i]), s);
      } else {
        before, left := ReachesLiteral(b, i + 1, [], NextLine(line, b[i]), s);
        before := Closed(run) + before;
      }
    }
  }

  lemma LiteralIsNotInside(b: bytes, i: nat, s: nat)
    requires i < s < |b| && NumberStarts(b, i) && IsLiteral(b, s)
    ensures NumberEnd(b, i) <= s && (Touches(b, i) ==> WordEnd(b, NumberEnd(b, i)) <= s)
  {
    hide LineOf, NumberValue;
    NumberBytes(b, i);
    WordBytes(b, i);
  }

  /** Once at a chain, the loop adds its literals to the open run one by one. */
  lemma {:induction false} ChainIsCollected(b: bytes, s: nat, run: seq<Literal>, values: seq<int>)
    returns (end: nat, more: seq<Literal>)
    requires s <= |b| && Chain(b, s, values)
    ensures s <= end <= |b| && Values(more) == values
    ensures Runs(b, s, run, LineOf(b, s)) == Runs(b, end, run + more, LineOf(b, end))
    ensures values != [] ==> s < |b| && more[0].line == LineOf(b, s)
    decreases |values|
  {
    hide Runs, LineOf, NumberEnd, NumberValue, Closed, NumberStarts, Touches, IsSeparator, SeparatorsEnd;
    if values == [] {
      end, more := s, [];
      assert run + more == run;
    } else {
      RunsStep(b, s, run, LineOf(b, s));
      LiteralOpens(b, s);
      NumberBytes(b, s);
      var l := Literal(NumberValue(b, s), LineOf(b, s));
      var after := NumberEnd(b, s);
      var next := SeparatorsEnd(b, after);
      SeparatorsAreSkipped(b, after, next, run + [l]);
      end, more := ChainIsCollected(b, next, run + [l], values[1..]);
      assert (run + [l]) + more == run + ([l] + more);
      assert Values([l] + more) == [l.value] + Values(more);
      more := [l] + more;
    }
  }

  lemma LiteralOpens(b: bytes, s: nat)
    requires s < |b| && IsLiteral(b, s)
    ensures NumberStarts(b, s) && !Touches(b, s) && InRange(NumberValue(b, s))
  {
  }

  lemma {:induction false} SeparatorsAreSkipped(b: bytes, i: nat, j: nat, run: seq<Literal>)
    requires i <= j <= |b| && forall k :: i <= k < j ==> IsSeparator(b[k])
    ensures Runs(b, i, run, LineOf(b, i)) == Runs(b, j, run, LineOf(b, j))
    decreases j - i
  {
    hide Runs, LineOf;
    if i < j {
      RunsStep(b, i, run, LineOf(b, i));
      OneByte(b, i);
      SeparatorsAreSkipped(b, i + 1, j, run);
    }
  }

  /** A run that is long enough is reported, with what it gathers later at its end. */
  lemma {:induction false} LongRunIsKept(b: bytes, i: nat, run: seq<Literal>, line: nat) returns (r: nat)
    requires i <= |b| && |run| >= RUN
    ensures r < |Runs(b, i, run, line)| && run <= Runs(b, i, run, line)[r]
    decreases |b| - i
  {
    hide Runs, NumberEnd, NumberValue, NumberStarts, Touches, WordEnd, IsSeparator;
    if i == |b| {
      RunsEnd(b, run, line);
      return 0;
    }
    RunsStep(b, i, run, line);
    if NumberStarts(b, i) && !Touches(b, i) && InRange(NumberValue(b, i)) {
      r := LongRunIsKept(b, NumberEnd(b, i), run + [Literal(NumberValue(b, i), line)], line);
    } else if !NumberStarts(b, i) && IsSeparator(b[i]) {
      r := LongRunIsKept(b, i + 1, run, NextLine(line, b[i]));
    } else {
      r := 0;
    }
  }

  // ---------------------------------------------------------------- both ways

  lemma WindowIsChain(b: bytes, window: seq<int>, line: nat, r: nat, k: nat) returns (s: nat)
    requires r < |Runs(b, 0, [], 1)| && WindowAt(Runs(b, 0, [], 1)[r], k, window, line)
    ensures s < |b| && Chain(b, s, window) && LineOf(b, s) == line
  {
    hide Runs, Chain, IsLiteral;
    var run := Runs(b, 0, [], 1)[r];
    NothingLinked(b);
    var starts := RunIsLinked(b, 0, [], 1, [], run);
    LinkedIsChain(b, starts, run, k, |window|);
    s := starts[k];
    assert Names(b, starts[k], run[k]);
  }

  lemma ChainIsWindow(b: bytes, window: seq<int>, s: nat)
    requires |window| == RUN && s < |b| && Chain(b, s, window)
    ensures HasWindow(Runs(b, 0, [], 1), window, LineOf(b, s))
  {
    hide Runs, LineOf, IsLiteral;
    StartLine(b);
    var before, run := ReachesLiteral(b, 0, [], 1, s);
    var end, more := ChainIsCollected(b, s, run, window);
    var r := LongRunIsKept(b, end, run + more, LineOf(b, end));
    var runs := Runs(b, 0, [], 1);
    var found := runs[|before| + r];
    assert run + more <= found;
    assert found[|run|..|run| + RUN] == more;
    assert found[|run|] == more[0];
    assert WindowAt(found, |run|, window, LineOf(b, s));
  }

  lemma StartLine(b: bytes)
    ensures LineOf(b, 0) == 1
  {
  }

  /** Six values are in a run of the file, on a given line, exactly when they stand there as literals
      with only separators between, the first of them on that line. */
  lemma WindowIff(b: bytes, window: seq<int>, line: nat)
    requires |window| == RUN
    ensures HasWindow(Runs(b, 0, [], 1), window, line) <==>
            exists s :: 0 <= s < |b| && Chain(b, s, window) && LineOf(b, s) == line
  {
    hide Runs, Chain, LineOf, WindowAt;
    if HasWindow(Runs(b, 0, [], 1), window, line) {
      var r, k :| 0 <= r < |Runs(b, 0, [], 1)| && WindowAt(Runs(b, 0, [], 1)[r], k, window, line);
      WindowIndex(Runs(b, 0, [], 1)[r], k, window, line);
      var s := WindowIsChain(b, window, line, r, k);
    }
    if s :| 0 <= s < |b| && Chain(b, s, window) && LineOf(b, s) == line {
      ChainIsWindow(b, window, s);
    }
  }

  lemma WindowIndex(run: seq<Literal>, k: int, window: seq<int>, line: nat)
    requires WindowAt(run, k, window, line)
    ensures 0 <= k
  {
  }
}

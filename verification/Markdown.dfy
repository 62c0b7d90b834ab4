/** `lib_markdown.py`: fenced blocks by section 4.5 of the CommonMark specification, found in lines and
    in characters, and substitution that leaves code alone. */
module Markdown {
  import opened Options
  import opened Text

  // ---------------------------------------------------------------- one line

  datatype Marker = Marker(mark: char, run: nat)

  /** `_fence_open`: the marker of a line that opens a fence. */
  function FenceOpen(line: string): (r: Option<Marker>)
    ensures r.Some? ==> r.value.mark in "`~" && r.value.run >= 3
  {
    var indent := LeadingRun(line, ' ');
    var stripped := line[indent..];
    if indent > 3 || stripped == [] || stripped[0] !in "`~" then None
    else
      var mark := stripped[0];
      var run := LeadingRun(stripped, mark);
      if run < 3 || (mark == '`' && '`' in Strip(stripped[run..])) then None else Some(Marker(mark, run))
  }

  /** `_fence_close`: whether a line closes the fence with this marker. */
  predicate FenceClose(line: string, m: Marker) {
    var indent := LeadingRun(line, ' ');
    var stripped := line[indent..];
    var n := LeadingRun(stripped, m.mark);
    indent <= 3 && n >= m.run && Strip(stripped[n..]) == []
  }

  /** The info string of a line that opens a fence. */
  function Info(line: string, m: Marker): string {
    var stripped := line[LeadingRun(line, ' ')..];
    if m.run <= |stripped| then Strip(stripped[m.run..]) else []
  }

  // ---------------------------------------------------------------- fenced blocks

  /** One fenced block: its lines from the opening marker to just past the closing one. */
  datatype Fence = Fence(start: nat, end: nat, marker: Marker, info: string, body: seq<string>)

  /** The first line from `i` on that closes the fence, or the number of lines. */
  function CloserFrom(lines: seq<string>, i: nat, m: Marker): (j: nat)
    requires i <= |lines|
    ensures i <= j <= |lines| && (j < |lines| ==> FenceClose(lines[j], m))
    ensures forall k :: i <= k < j ==> !FenceClose(lines[k], m)
    decreases |lines| - i
  {
    if i == |lines| || FenceClose(lines[i], m) then i else CloserFrom(lines, i + 1, m)
  }

  function Past(lines: seq<string>, closer: nat): nat {
    if closer + 1 <= |lines| then closer + 1 else |lines|
  }

  /** The fenced blocks from line `i` on. */
  function FencesFrom(lines: seq<string>, i: nat): (fences: seq<Fence>)
    requires i <= |lines|
    decreases |lines| - i
  {
    if i == |lines| then []
    else if FenceOpen(lines[i]).None? then FencesFrom(lines, i + 1)
    else
      var m := FenceOpen(lines[i]).value;
      var closer := CloserFrom(lines, i + 1, m);
      var end := Past(lines, closer);
      [Fence(i, end, m, Info(lines[i], m), lines[i + 1..closer])] + FencesFrom(lines, end)
  }

  /** `fences`: every fenced block of a text, in document order. */
  function Fences(text: string): seq<Fence> {
    FencesFrom(SplitLines(text), 0)
  }

  /** The inner loop of `fences` and of `code_regions`. */
  method SkipBody(lines: seq<string>, start: nat, m: Marker) returns (i: nat)
    requires start <= |lines|
    ensures i == CloserFrom(lines, start, m)
  {
    hide FenceClose;
    i := start;
    while i < |lines| && !FenceClose(lines[i], m)
      invariant start <= i <= |lines|
      invariant CloserFrom(lines, start, m) == CloserFrom(lines, i, m)
    {
      i := i + 1;
    }
  }

  /** The loop of `fences`. */
  method FindFences(text: string) returns (out: seq<Fence>)
    ensures out == Fences(text)
  {
    hide FenceOpen, FenceClose, Info, CloserFrom, Lines;
    var lines := SplitLines(text);
    out := [];
    var i := 0;
    while i < |lines|
      invariant 0 <= i <= |lines|
      invariant out + FencesFrom(lines, i) == FencesFrom(lines, 0)
    {
      var start := FenceOpen(lines[i]);
      if start.None? {
        i := i + 1;
        continue;
      }
      var m := start.value;
      var closer := SkipBody(lines, i + 1, m);
      var end := Past(lines, closer);
      var fence := Fence(i, end, m, Info(lines[i], m), lines[i + 1..closer]);
      assert out + ([fence] + FencesFrom(lines, end)) == (out + [fence]) + FencesFrom(lines, end);
      out := out + [fence];
      i := end;
    }
    assert out + [] == out;
  }

  // ---------------------------------------------------------------- the mask

  /** Whether line `n` belongs to one of these blocks. */
  predicate InFence(fences: seq<Fence>, n: nat) {
    exists f :: f in fences && f.start <= n < f.end
  }

  /** `fence_mask`: one flag per line, set on the marker lines of the blocks and between them. */
  method FenceMask(text: string) returns (mask: seq<bool>)
    ensures |mask| == |SplitLines(text)|
    ensures forall n: nat :: n < |mask| ==> (mask[n] <==> InFence(Fences(text), n))
  {
    hide FencesFrom, Lines;
    var fences := FindFences(text);
    mask := seq(|SplitLines(text)|, _ => false);
    for k := 0 to |fences|
      invariant |mask| == |SplitLines(text)|
      invariant forall n: nat :: n < |mask| ==> (mask[n] <==> InFence(fences[..k], n))
    {
      var f, before := fences[k], mask;
      var n := f.start;
      while n < f.end && n < |mask|
        invariant |mask| == |before| && f.start <= n
        invariant forall j: nat :: j < |mask| ==> (mask[j] <==> before[j] || f.start <= j < n)
        invariant n <= f.end || n == f.start
      {
        mask := mask[n := true];
        n := n + 1;
      }
      assert fences[..k + 1] == fences[..k] + [f];
      InFenceStep(fences[..k], f);
    }
    assert fences[..|fences|] == fences;
  }

  lemma InFenceStep(fences: seq<Fence>, f: Fence)
    ensures forall n: nat :: InFence(fences + [f], n) <==> InFence(fences, n) || f.start <= n < f.end
  {
    forall n: nat
      ensures InFence(fences + [f], n) <==> InFence(fences, n) || f.start <= n < f.end
    {
      if InFence(fences, n) {
        var g :| g in fences && g.start <= n < g.end;
        assert g in fences + [f];
      }
      if f.start <= n < f.end {
        assert f in fences + [f];
      }
    }
  }

  // ---------------------------------------------------------------- a line at a time

  /** Outside code, or inside a fence opened by this marker. */
  datatype State = Outside | Inside(marker: Marker)

  function NextState(state: State, line: string): State {
    match state
    case Outside => if FenceOpen(line).Some? then Inside(FenceOpen(line).value) else Outside
    case Inside(m) => if FenceClose(line, m) then Outside else Inside(m)
  }

  /** A line belongs to a block if it opens one or stands in one. */
  predicate Masked(state: State, line: string) {
    state.Inside? || FenceOpen(line).Some?
  }

  /** The state before line `n`. */
  function StateAt(lines: seq<string>, n: nat): State
    requires n <= |lines|
  {
    if n == 0 then Outside else NextState(StateAt(lines, n - 1), lines[n - 1])
  }

  /** The blocks lie between these lines, one after another. */
  ghost predicate Ascending(fences: seq<Fence>, from: nat, to: nat) {
    && (forall k :: 0 <= k < |fences| ==> from <= fences[k].start < fences[k].end <= to)
    && (forall k, l :: 0 <= k < l < |fences| ==> fences[k].end <= fences[l].start)
  }

  lemma AscendingCons(f: Fence, rest: seq<Fence>, from: nat, to: nat)
    requires from <= f.start < f.end <= to && Ascending(rest, f.end, to)
    ensures Ascending([f] + rest, from, to)
  {
  }

  /** The blocks found from line `i` on lie there, one after another. */
  lemma {:induction false} FencesAscend(lines: seq<string>, i: nat)
    requires i <= |lines|
    ensures Ascending(FencesFrom(lines, i), i, |lines|)
    decreases |lines| - i
  {
    hide FenceOpen, CloserFrom, Info;
    if i < |lines| {
      if FenceOpen(lines[i]).None? {
        FencesAscend(lines, i + 1);
      } else {
        var m := FenceOpen(lines[i]).value;
        var end := Past(lines, CloserFrom(lines, i + 1, m));
        FencesAscend(lines, end);
        hide Ascending;
        AscendingCons(FencesFrom(lines, i)[0], FencesFrom(lines, end), i, |lines|);
      }
    }
  }

  /** The block starts with the marker of its first line and ends with the first line after it that
      closes that marker, or with the last line of the document if none does. */
  predicate EndsItself(lines: seq<string>, f: Fence) {
    && f.start < |lines| && FenceOpen(lines[f.start]) == Some(f.marker) && f.info == Info(lines[f.start], f.marker)
    && var closer := f.start + 1 + |f.body|;
    && closer <= |lines| && f.body == lines[f.start + 1..closer]
    && (forall line :: line in f.body ==> !FenceClose(line, f.marker))
    && if closer < |lines| then FenceClose(lines[closer], f.marker) && f.end == closer + 1 else f.end == |lines|
  }

  /** Every block found from line `i` on ends where its own marker is first closed. */
  lemma {:induction false} FencesEnd(lines: seq<string>, i: nat)
    requires i <= |lines|
    ensures forall f :: f in FencesFrom(lines, i) ==> EndsItself(lines, f)
    decreases |lines| - i
  {
    hide FenceOpen, FenceClose, CloserFrom, Info;
    if i < |lines| {
      if FenceOpen(lines[i]).None? {
        FencesEnd(lines, i + 1);
      } else {
        var m := FenceOpen(lines[i]).value;
        var closer := CloserFrom(lines, i + 1, m);
        FencesEnd(lines, Past(lines, closer));
        FenceEnds(lines, i, m, closer);
      }
    }
  }

  lemma FenceEnds(lines: seq<string>, i: nat, m: Marker, closer: nat)
    requires i < |lines| && FenceOpen(lines[i]) == Some(m) && closer == CloserFrom(lines, i + 1, m)
    ensures EndsItself(lines, Fence(i, Past(lines, closer), m, Info(lines[i], m), lines[i + 1..closer]))
  {
    hide FenceOpen, FenceClose, CloserFrom, Info;
    forall line | line in lines[i + 1..closer]
      ensures !FenceClose(line, m)
    {
      var k :| i + 1 <= k < closer && lines[k] == line;
    }
  }

  lemma {:induction false} InsideUntilClosed(lines: seq<string>, i: nat, m: Marker, n: nat)
    requires i < |lines| && i < n <= CloserFrom(lines, i + 1, m)
    requires StateAt(lines, i) == Outside && FenceOpen(lines[i]) == Some(m)
    ensures StateAt(lines, n) == Inside(m)
  {
    hide FenceOpen, FenceClose, CloserFrom;
    if n > i + 1 {
      InsideUntilClosed(lines, i, m, n - 1);
    }
  }

  lemma NotBefore(fences: seq<Fence>, from: nat, to: nat, n: nat)
    requires Ascending(fences, from, to) && n < from
    ensures !InFence(fences, n)
  {
  }

  lemma InFenceCons(f: Fence, rest: seq<Fence>, n: nat)
    ensures InFence([f] + rest, n) <==> f.start <= n < f.end || InFence(rest, n)
  {
    assert forall g :: g in [f] + rest <==> g == f || g in rest;
  }

  /** The lines of the blocks are those a scanner reading one line at a time marks. */
  lemma {:induction false} FencesMatchStates(lines: seq<string>, i: nat, n: nat)
    requires i <= n < |lines| && StateAt(lines, i) == Outside
    ensures InFence(FencesFrom(lines, i), n) <==> Masked(StateAt(lines, n), lines[n])
    decreases |lines| - i
  {
    hide FenceOpen, FenceClose, CloserFrom, Info, InFence, Ascending;
    if FenceOpen(lines[i]).None? {
      if n > i {
        FencesMatchStates(lines, i + 1, n);
      } else {
        FencesAscend(lines, i + 1);
        NotBefore(FencesFrom(lines, i + 1), i + 1, |lines|, i);
      }
    } else {
      BlockMatchesStates(lines, i, n);
      var end := Past(lines, CloserFrom(lines, i + 1, FenceOpen(lines[i]).value));
      if n >= end {
        FencesMatchStates(lines, end, n);
      }
    }
  }

  lemma BlockMatchesStates(lines: seq<string>, i: nat, n: nat)
    requires i <= n < |lines| && StateAt(lines, i) == Outside && FenceOpen(lines[i]).Some?
    ensures var end := Past(lines, CloserFrom(lines, i + 1, FenceOpen(lines[i]).value));
            && i < end <= |lines|
            && (n < end ==> Masked(StateAt(lines, n), lines[n]) && InFence(FencesFrom(lines, i), n))
            && (n >= end ==>
                  && StateAt(lines, end) == Outside
                  && (InFence(FencesFrom(lines, i), n) <==> InFence(FencesFrom(lines, end), n)))
  {
    hide FenceOpen, FenceClose, CloserFrom, Info, InFence;
    var m := FenceOpen(lines[i]).value;
    var closer := CloserFrom(lines, i + 1, m);
    var end := Past(lines, closer);
    InFenceCons(FencesFrom(lines, i)[0], FencesFrom(lines, end), n);
    if i < n < end {
      InsideUntilClosed(lines, i, m, n);
    }
    InsideUntilClosed(lines, i, m, closer);
  }

  /** `fences` and a one-line-at-a-time scanner agree on every line of every text. */
  lemma MaskIsScan(text: string, n: nat)
    requires n < |SplitLines(text)|
    ensures InFence(Fences(text), n) <==> Masked(StateAt(SplitLines(text), n), SplitLines(text)[n])
  {
    hide FencesFrom, Lines, Masked;
    FencesMatchStates(SplitLines(text), 0, n);
  }

  // ---------------------------------------------------------------- lines with their ends

  lemma RunBeforeEnd(line: string, end: string, c: char)
    requires !IsBreak(c) && forall i :: 0 <= i < |end| ==> IsBreak(end[i])
    ensures LeadingRun(line + end, c) == LeadingRun(line, c)
  {
    RunIs(line + end, c, LeadingRun(line, c));
  }

  lemma RunIs(s: string, c: char, n: nat)
    requires n <= |s| && (forall i :: 0 <= i < n ==> s[i] == c) && (n < |s| ==> s[n] != c)
    ensures LeadingRun(s, c) == n
  {
    hide LeadingRun;
  }

  lemma {:induction false} StripBeforeEnd(s: string, end: string)
    requires forall i :: 0 <= i < |end| ==> IsSpace(end[i])
    ensures Strip(s + end) == Strip(s)
  {
    if s == [] {
      assert s + end == end;
      StripEmptyIff(end);
      StripEmptyIff(s);
    } else if IsSpace(s[0]) {
      StripBeforeEnd(s[1..], end);
      assert (s + end)[1..] == s[1..] + end;
    } else {
      assert LStrip(s + end) == s + end && LStrip(s) == s;
      RStripBeforeEnd(s, end);
    }
  }

  lemma {:induction false} RStripBeforeEnd(s: string, end: string)
    requires forall i :: 0 <= i < |end| ==> IsSpace(end[i])
    ensures RStrip(s + end) == RStrip(s)
  {
    if end == [] {
      assert s + end == s;
    } else {
      var n := |end| - 1;
      RStripBeforeEnd(s, end[..n]);
      assert (s + end)[..|s + end| - 1] == s + end[..n];
      assert (s + end)[|s + end| - 1] == end[n];
    }
  }

  lemma BreaksAreSpaces(end: string)
    requires forall i :: 0 <= i < |end| ==> IsBreak(end[i])
    ensures forall i :: 0 <= i < |end| ==> IsSpace(end[i])
  {
  }

  lemma MarksAreNoBreaks()
    ensures !IsBreak(' ') && !IsBreak('`') && !IsBreak('~')
  {
  }

  /** A line break at the end of a line does not change whether it opens or closes a fence. */
  lemma EndDoesNotMatter(line: string, end: string, m: Marker)
    requires (forall i :: 0 <= i < |end| ==> IsBreak(end[i])) && !IsBreak(m.mark)
    ensures FenceOpen(line + end) == FenceOpen(line)
    ensures FenceClose(line + end, m) == FenceClose(line, m)
  {
    hide IsBreak, IsSpace, Strip, LeadingRun;
    BreaksAreSpaces(end);
    MarksAreNoBreaks();
    var indent := LeadingRun(line, ' ');
    RunBeforeEnd(line, end, ' ');
    var stripped := line[indent..];
    assert (line + end)[indent..] == stripped + end;
    RunBeforeEnd(stripped, end, m.mark);
    var n := LeadingRun(stripped, m.mark);
    assert (stripped + end)[n..] == stripped[n..] + end;
    StripBeforeEnd(stripped[n..], end);
    OpenBeforeEnd(stripped, end);
  }

  lemma OpenBeforeEnd(stripped: string, end: string)
    requires forall i :: 0 <= i < |end| ==> IsBreak(end[i])
    ensures (stripped + end == [] || (stripped + end)[0] !in "`~") <==> (stripped == [] || stripped[0] !in "`~")
    ensures stripped != [] && stripped[0] in "`~" ==>
              var run := LeadingRun(stripped, stripped[0]);
              && LeadingRun(stripped + end, stripped[0]) == run
              && Strip((stripped + end)[run..]) == Strip(stripped[run..])
  {
    hide IsSpace, Strip, LeadingRun;
    BreaksAreSpaces(end);
    MarksAreNoBreaks();
    if stripped != [] && stripped[0] in "`~" {
      var run := LeadingRun(stripped, stripped[0]);
      RunBeforeEnd(stripped, end, stripped[0]);
      assert (stripped + end)[run..] == stripped[run..] + end;
      StripBeforeEnd(stripped[run..], end);
    }
  }
}

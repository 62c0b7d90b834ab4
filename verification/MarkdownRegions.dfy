/** `lib_markdown.py`, `code_regions` and `sub_outside_code`: code as character ranges, and rewriting
    everything but code. */
module MarkdownRegions {
  import opened Options
  import opened Text
  import opened Markdown

  /** A half-open range of characters. */
  datatype Region = Region(start: nat, end: nat)

  /** `text.splitlines(keepends=True)`. */
  function FullLines(text: string): (full: seq<string>)
    ensures |full| == |Lines(text)| && forall i :: 0 <= i < |full| ==>
            full[i] == Lines(text)[i].text + Lines(text)[i].end
  {
    seq(|Lines(text)|, i requires 0 <= i < |Lines(text)| => Lines(text)[i].text + Lines(text)[i].end)
  }

  /** Where line `i` starts: the length of the lines before it. */
  function Offset(lines: seq<string>, i: nat): nat
    requires i <= |lines|
  {
    if i == 0 then 0 else Offset(lines, i - 1) + |lines[i - 1]|
  }

  function RegionOf(lines: seq<string>, f: Fence): Region
    requires f.start <= |lines| && f.end <= |lines|
  {
    Region(Offset(lines, f.start), Offset(lines, f.end))
  }

  ghost predicate Fit(lines: seq<string>, fences: seq<Fence>) {
    forall k :: 0 <= k < |fences| ==> fences[k].start <= |lines| && fences[k].end <= |lines|
  }

  ghost function RegionsOf(lines: seq<string>, fences: seq<Fence>): (regions: seq<Region>)
    requires Fit(lines, fences)
    ensures |regions| == |fences| && forall k :: 0 <= k < |fences| ==> regions[k] == RegionOf(lines, fences[k])
  {
    seq(|fences|, k requires 0 <= k < |fences| => RegionOf(lines, fences[k]))
  }

  lemma FencesFit(lines: seq<string>)
    ensures Fit(lines, FencesFrom(lines, 0))
  {
    hide FencesFrom;
    FencesAscend(lines, 0);
  }

  /** The fenced blocks as character ranges. */
  ghost function FencedRegions(text: string): seq<Region> {
    var full := FullLines(text);
    FencesFit(full);
    RegionsOf(full, FencesFrom(full, 0))
  }

  /** The first loops of `code_regions`: line offsets, then the fenced blocks. */
  method FindFenced(text: string) returns (fenced: seq<Region>)
    ensures fenced == FencedRegions(text)
  {
    hide FenceOpen, FenceClose, Info, CloserFrom, Lines, FencesFrom, Offset;
    var lines := FullLines(text);
    var offsets: seq<nat>, pos := [], 0;
    OffsetStart(lines);
    for i := 0 to |lines|
      invariant |offsets| == i && pos == Offset(lines, i)
      invariant forall j :: 0 <= j < i ==> offsets[j] == Offset(lines, j)
    {
      offsets := offsets + [pos];
      OffsetStep(lines, i);
      pos := pos + |lines[i]|;
    }
    offsets := offsets + [pos];
    fenced := [];
    ghost var found: seq<Fence> := [];
    var i := 0;
    FencesFit(lines);
    while i < |lines|
      invariant 0 <= i <= |lines|
      invariant found + FencesFrom(lines, i) == FencesFrom(lines, 0)
      invariant Fit(lines, found)
      invariant fenced == RegionsOf(lines, found)
    {
      var start := FenceOpen(lines[i]);
      FencesStep(lines, i);
      if start.None? {
        i := i + 1;
        continue;
      }
      var closer := SkipBody(lines, i + 1, start.value);
      var end := Past(lines, closer);
      ghost var fence := FencesFrom(lines, i)[0];
      assert found + ([fence] + FencesFrom(lines, end)) == (found + [fence]) + FencesFrom(lines, end);
      fenced := fenced + [Region(offsets[i], offsets[end])];
      found := found + [fence];
      i := end;
    }
    FencesEnd(lines);
    assert found + [] == found;
  }

  lemma OffsetStart(lines: seq<string>)
    ensures Offset(lines, 0) == 0
  {
  }

  lemma OffsetStep(lines: seq<string>, i: nat)
    requires i < |lines|
    ensures Offset(lines, i + 1) == Offset(lines, i) + |lines[i]|
  {
  }

  lemma FencesEnd(lines: seq<string>)
    ensures FencesFrom(lines, |lines|) == []
  {
  }

  lemma FencesStep(lines: seq<string>, i: nat)
    requires i < |lines|
    ensures FenceOpen(lines[i]).None? ==> FencesFrom(lines, i) == FencesFrom(lines, i + 1)
    ensures FenceOpen(lines[i]).Some? ==>
              var end := Past(lines, CloserFrom(lines, i + 1, FenceOpen(lines[i]).value));
              && i < end <= |lines|
              && FencesFrom(lines, i) != [] && FencesFrom(lines, i)[0].start == i && FencesFrom(lines, i)[0].end == end
              && FencesFrom(lines, i) == [FencesFrom(lines, i)[0]] + FencesFrom(lines, end)
  {
    hide FenceOpen, CloserFrom, Info;
  }

  // ---------------------------------------------------------------- agreement with `fences`

  /** The two lists of lines open and close the same fences. */
  ghost predicate Alike(a: seq<string>, b: seq<string>) {
    && |a| == |b|
    && (forall i :: 0 <= i < |a| ==> FenceOpen(a[i]) == FenceOpen(b[i]))
    && (forall i, m: Marker :: 0 <= i < |a| && !IsBreak(m.mark) ==> FenceClose(a[i], m) == FenceClose(b[i], m))
  }

  lemma {:induction false} SameCloser(a: seq<string>, b: seq<string>, i: nat, m: Marker)
    requires Alike(a, b) && i <= |a| && !IsBreak(m.mark)
    ensures CloserFrom(a, i, m) == CloserFrom(b, i, m)
    decreases |a| - i
  {
    hide FenceOpen, FenceClose, IsBreak;
    if i < |a| && !FenceClose(a[i], m) {
      SameCloser(a, b, i + 1, m);
    }
  }

  /** Lines that open and close alike have blocks in the same places. */
  lemma {:induction false} SameSpans(a: seq<string>, b: seq<string>, i: nat)
    requires Alike(a, b) && i <= |a|
    ensures var f, g := FencesFrom(a, i), FencesFrom(b, i);
            |f| == |g| && forall k :: 0 <= k < |f| ==> f[k].start == g[k].start && f[k].end == g[k].end
    decreases |a| - i
  {
    hide FenceClose, CloserFrom, Info, FenceOpen;
    if i < |a| {
      if FenceOpen(a[i]).None? {
        SameSpans(a, b, i + 1);
      } else {
        var m := FenceOpen(a[i]).value;
        MarksAreNoBreaks();
        SameCloser(a, b, i + 1, m);
        SameSpans(a, b, Past(a, CloserFrom(a, i + 1, m)));
      }
    }
  }

  lemma {:induction false} EndsAreBreaks(text: string, i: nat)
    requires i < |Lines(text)|
    ensures forall j :: 0 <= j < |Lines(text)[i].end| ==> IsBreak(Lines(text)[i].end[j])
    decreases |text|
  {
    hide LineLength;
    var line := HeadLine(text);
    if i > 0 {
      EndsAreBreaks(text[|line.text| + |line.end|..], i - 1);
    }
  }

  lemma FullLinesAlike(text: string)
    ensures Alike(SplitLines(text), FullLines(text))
  {
    hide Lines, FenceOpen, FenceClose;
    var lines := Lines(text);
    forall i, m: Marker | 0 <= i < |lines| && !IsBreak(m.mark)
      ensures FenceOpen(lines[i].text) == FenceOpen(lines[i].text + lines[i].end)
      ensures FenceClose(lines[i].text, m) == FenceClose(lines[i].text + lines[i].end, m)
    {
      EndsAreBreaks(text, i);
      EndDoesNotMatter(lines[i].text, lines[i].end, m);
    }
    MarksAreNoBreaks();
    assert !IsBreak(Marker('~', 3).mark);
  }

  /** The fenced ranges are those of the blocks `fences` finds, in the same order. */
  lemma FencedRegionsAreFences(text: string)
    ensures var fences := Fences(text);
            && |FencedRegions(text)| == |fences|
            && forall k :: 0 <= k < |fences| ==>
                 && fences[k].start < fences[k].end <= |FullLines(text)|
                 && FencedRegions(text)[k] == RegionOf(FullLines(text), fences[k])
  {
    hide Lines, FencesFrom;
    FullLinesAlike(text);
    SameSpans(SplitLines(text), FullLines(text), 0);
    FencesAscend(SplitLines(text), 0);
    FencesFit(FullLines(text));
  }

  lemma {:induction false} OffsetsGrow(lines: seq<string>, i: nat, j: nat)
    requires i <= j <= |lines|
    ensures Offset(lines, i) <= Offset(lines, j)
  {
    if i < j {
      OffsetsGrow(lines, i, j - 1);
    }
  }

  lemma {:induction false} OffsetsEnd(text: string)
    ensures Offset(FullLines(text), |FullLines(text)|) == |text|
    decreases |text|
  {
    hide LineLength, BreakLength, IsBreak;
    if text != [] {
      var line := HeadLine(text);
      var k := |line.text| + |line.end|;
      OffsetsEnd(text[k..]);
      OffsetsShift(line.text + line.end, FullLines(text[k..]), |FullLines(text[k..])|);
      assert FullLines(text) == [line.text + line.end] + FullLines(text[k..]);
    }
  }

  lemma {:induction false} OffsetsShift(first: string, rest: seq<string>, i: nat)
    requires i <= |rest|
    ensures Offset([first] + rest, i + 1) == |first| + Offset(rest, i)
  {
    if i > 0 {
      OffsetsShift(first, rest, i - 1);
    }
  }
}

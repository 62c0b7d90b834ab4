/** `lib_markdown.py`, the rest of `code_regions` and `sub_outside_code`: inline code spans, and
    rewriting everything but code. */
module MarkdownRewrite {
  import Sorting
  import opened MarkdownRegions

  /** A run of backticks starts at `i`: the character before, if any, is not one. */
  predicate RunStarts(text: string, i: nat)
    requires i < |text|
  {
    text[i] == '`' && (i == 0 || text[i - 1] != '`')
  }

  /** How many of the characters from `i` on are backticks, looking no further than `hi`. */
  function RunLength(text: string, i: nat, hi: nat): (n: nat)
    requires i <= hi <= |text|
    ensures i + n <= hi && (forall k :: i <= k < i + n ==> text[k] == '`') && (i + n < hi ==> text[i + n] != '`')
    decreases hi - i
  {
    if i < hi && text[i] == '`' then 1 + RunLength(text, i + 1, hi) else 0
  }

  /** A run of exactly `n` backticks starts at `j`. */
  predicate ExactRun(text: string, j: nat, hi: nat, n: nat)
    requires j < hi <= |text|
  {
    RunStarts(text, j) && RunLength(text, j, hi) == n
  }

  /** The first run of exactly `n` backticks at or after `j`; `hi` when there is none. */
  function CloserAt(text: string, j: nat, hi: nat, n: nat): (k: nat)
    requires j <= hi <= |text|
    ensures j <= k <= hi
    ensures k < hi ==> ExactRun(text, k, hi, n)
    ensures forall i :: j <= i < k ==> !ExactRun(text, i, hi, n)
    decreases hi - j
  {
    if j == hi || ExactRun(text, j, hi, n) then j else CloserAt(text, j + 1, hi, n)
  }

  /** Where the span starting at `i` ends, and `i` itself when none starts there: the pattern
      matches a run of backticks, then everything up to the next run of the same length. */
  function SpanEnd(text: string, i: nat, hi: nat): (end: nat)
    requires i < hi <= |text|
    ensures i <= end <= hi
  {
    if !RunStarts(text, i) then i
    else
      var n := RunLength(text, i, hi);
      var close := CloserAt(text, i + n, hi, n);
      if close == hi then i else close + n
  }

  /** The inline spans of `text[lo..hi]`, first to last, as `finditer` yields them. */
  function Spans(text: string, lo: nat, hi: nat): seq<Region>
    requires hi <= |text|
    decreases hi - lo
  {
    if lo >= hi then []
    else if SpanEnd(text, lo, hi) == lo then Spans(text, lo + 1, hi)
    else [Region(lo, SpanEnd(text, lo, hi))] + Spans(text, SpanEnd(text, lo, hi), hi)
  }

  /** `r` runs from a run of backticks through the next run of the same length. */
  ghost predicate IsSpan(text: string, r: Region, hi: nat) {
    && r.start < r.end <= hi <= |text|
    && RunStarts(text, r.start)
    && var n := RunLength(text, r.start, hi);
       && r.start + n < r.end - n && ExactRun(text, r.end - n, hi, n)
       && forall j :: r.start + n <= j < r.end - n ==> !ExactRun(text, j, hi, n)
  }

  lemma SpanHere(text: string, i: nat, hi: nat)
    requires i < hi <= |text|
    ensures SpanEnd(text, i, hi) != i ==> IsSpan(text, Region(i, SpanEnd(text, i, hi)), hi)
    ensures SpanEnd(text, i, hi) == i ==> forall end :: !IsSpan(text, Region(i, end), hi)
  {
    if SpanEnd(text, i, hi) == i {
      forall end: nat
        ensures !IsSpan(text, Region(i, end), hi)
      {
        if RunStarts(text, i) {
          var n := RunLength(text, i, hi);
          assert i + n < end - n < hi ==> !ExactRun(text, end - n, hi, n);
        }
      }
    } else {
      var n := RunLength(text, i, hi);
      assert text[i + n - 1] == '`';
      assert i + n < hi ==> !RunStarts(text, i + n);
    }
  }

  /** Each span found runs between two equal runs of backticks, and the spans follow each other. */
  lemma {:induction false} SpansSound(text: string, lo: nat, hi: nat, k: nat)
    requires hi <= |text| && k < |Spans(text, lo, hi)|
    ensures lo <= Spans(text, lo, hi)[k].start && IsSpan(text, Spans(text, lo, hi)[k], hi)
    ensures k > 0 ==> Spans(text, lo, hi)[k - 1].end <= Spans(text, lo, hi)[k].start
    decreases hi - lo
  {
    hide SpanEnd, IsSpan;
    SpanHere(text, lo, hi);
    var end := SpanEnd(text, lo, hi);
    if end == lo {
      SpansSound(text, lo + 1, hi, k);
    } else if k > 0 {
      SpansSound(text, end, hi, k - 1);
    }
  }

  /** Nothing is missed: wherever a span could start, some span found starts there or covers it. */
  lemma {:induction false} SpansComplete(text: string, lo: nat, hi: nat, r: Region)
    requires hi <= |text| && lo <= r.start && IsSpan(text, r, hi)
    ensures Covers(Spans(text, lo, hi), r.start)
    decreases hi - lo
  {
    hide SpanEnd, IsSpan;
    SpanBounds(text, r, hi);
    SpanHere(text, lo, hi);
    var end := SpanEnd(text, lo, hi);
    if end == lo {
      SpansComplete(text, lo + 1, hi, r);
    } else {
      assert Spans(text, lo, hi) == [Region(lo, end)] + Spans(text, end, hi);
      if r.start < end {
        assert In(Spans(text, lo, hi)[0], r.start);
      } else {
        SpansComplete(text, end, hi, r);
        CoversLater([Region(lo, end)], Spans(text, end, hi), r.start);
      }
    }
  }

  lemma SpanBounds(text: string, r: Region, hi: nat)
    requires IsSpan(text, r, hi)
    ensures r.start < hi <= |text|
  {
  }

  lemma CoversLater(a: seq<Region>, b: seq<Region>, i: nat)
    requires Covers(b, i)
    ensures Covers(a + b, i)
  {
    var k :| 0 <= k < |b| && In(b[k], i);
    assert (a + b)[|a| + k] == b[k];
  }

  /** The inline spans of the gaps between fenced blocks. */
  function InlineRegions(text: string, fenced: seq<Region>, cursor: nat): seq<Region>
    requires AllFit(text, fenced)
  {
    if fenced == [] then Spans(text, cursor, |text|)
    else Spans(text, cursor, fenced[0].start) + InlineRegions(text, fenced[1..], fenced[0].end)
  }

  predicate Fits(text: string, r: Region) {
    r.start <= r.end <= |text|
  }

  predicate AllFit(text: string, regions: seq<Region>) {
    forall k :: 0 <= k < |regions| ==> Fits(text, regions[k])
  }

  /** Every code region: fenced blocks first, then inline spans. */
  ghost function CodeRegions(text: string): seq<Region> {
    FencedRegionsFit(text);
    FencedRegions(text) + InlineRegions(text, FencedRegions(text), 0)
  }

  lemma FencedRegionsFit(text: string)
    ensures AllFit(text, FencedRegions(text))
  {
    hide FencedRegions, FullLines;
    FencedRegionsAreFences(text);
    OffsetsEnd(text);
    var full := FullLines(text);
    forall k | 0 <= k < |FencedRegions(text)|
      ensures Fits(text, FencedRegions(text)[k])
    {
      var f := Markdown.Fences(text)[k];
      OffsetsGrow(full, f.start, f.end);
      OffsetsGrow(full, f.end, |full|);
    }
  }

  lemma {:induction false} SpansFit(text: string, lo: nat, hi: nat)
    requires hi <= |text|
    ensures AllFit(text, Spans(text, lo, hi))
    decreases hi - lo
  {
    hide SpanEnd;
    if lo < hi {
      if SpanEnd(text, lo, hi) == lo {
        SpansFit(text, lo + 1, hi);
      } else {
        SpansFit(text, SpanEnd(text, lo, hi), hi);
      }
    }
  }

  lemma {:induction false} InlineRegionsFit(text: string, fenced: seq<Region>, cursor: nat)
    requires AllFit(text, fenced)
    ensures AllFit(text, InlineRegions(text, fenced, cursor))
  {
    hide Spans;
    if fenced == [] {
      SpansFit(text, cursor, |text|);
    } else {
      SpansFit(text, cursor, fenced[0].start);
      InlineRegionsFit(text, fenced[1..], fenced[0].end);
    }
  }

  lemma CodeRegionsFit(text: string)
    ensures AllFit(text, CodeRegions(text))
  {
    hide FencedRegions, InlineRegions;
    FencedRegionsFit(text);
    InlineRegionsFit(text, FencedRegions(text), 0);
  }

  /** `code_regions`. */
  method FindCode(text: string) returns (regions: seq<Region>)
    ensures regions == CodeRegions(text)
  {
    hide FencedRegions, Spans;
    FencedRegionsFit(text);
    var fenced := FindFenced(text);
    regions := fenced;
    var cursor := 0;
    for k := 0 to |fenced|
      invariant regions + InlineRegions(text, fenced[k..], cursor) == CodeRegions(text)
    {
      var gap := Spans(text, cursor, fenced[k].start);
      assert fenced[k..][1..] == fenced[k + 1..];
      assert regions + (gap + InlineRegions(text, fenced[k + 1..], fenced[k].end)) ==
             (regions + gap) + InlineRegions(text, fenced[k + 1..], fenced[k].end);
      regions := regions + gap;
      cursor := fenced[k].end;
    }
    regions := regions + Spans(text, cursor, |text|);
  }

  // ---------------------------------------------------------------- merging

  /** Python's order on pairs. */
  predicate Precedes(a: Region, b: Region) {
    a.start < b.start || (a.start == b.start && a.end < b.end)
  }

  function Joined(merged: seq<Region>, r: Region): seq<Region> {
    if merged != [] && r.start <= merged[|merged| - 1].end then
      var last := merged[|merged| - 1];
      merged[..|merged| - 1] + [Region(last.start, if last.end < r.end then r.end else last.end)]
    else
      merged + [r]
  }

  /** The regions with every overlap, and every pair that touches, made one. */
  function Merged(sorted: seq<Region>): seq<Region> {
    if sorted == [] then [] else Joined(Merged(sorted[..|sorted| - 1]), sorted[|sorted| - 1])
  }

  predicate In(r: Region, i: nat) {
    r.start <= i < r.end
  }

  /** `i` is a position of one of the regions. */
  ghost predicate Covers(regions: seq<Region>, i: nat) {
    exists k :: 0 <= k < |regions| && In(regions[k], i)
  }

  /** The regions lie in the text from `cursor` on, one strictly after the other. */
  ghost predicate Apart(text: string, regions: seq<Region>, cursor: nat) {
    && cursor <= |text|
    && AllFit(text, regions)
    && (forall k :: 0 <= k < |regions| ==> cursor <= regions[k].start)
    && (forall j, k :: 0 <= j < k < |regions| ==> regions[j].end < regions[k].start)
  }

  lemma JoinedApart(text: string, merged: seq<Region>, r: Region)
    requires Apart(text, merged, 0) && Fits(text, r)
    requires merged != [] ==> merged[|merged| - 1].start <= r.start
    ensures Apart(text, Joined(merged, r), 0)
    ensures Joined(merged, r) != [] && Joined(merged, r)[|Joined(merged, r)| - 1].start <= r.start
  {
  }

  lemma JoinedCovers(merged: seq<Region>, r: Region, i: nat)
    requires merged != [] ==> merged[|merged| - 1].start <= r.start
    ensures Covers(Joined(merged, r), i) <==> Covers(merged, i) || In(r, i)
  {
    var all := Joined(merged, r);
    var n := |all| - 1;
    assert all[..n] == merged[..n];
    assert In(all[n], i) <==> (n < |merged| && In(merged[n], i)) || In(r, i);
    if Covers(merged, i) {
      var k :| 0 <= k < |merged| && In(merged[k], i);
      assert k < n ==> all[k] == merged[k];
      assert In(all[if k < n then k else n], i);
    }
    if Covers(all, i) {
      var k :| 0 <= k < |all| && In(all[k], i);
      assert k < n ==> merged[k] == all[k];
    }
  }

  /** Merging keeps exactly the positions covered, in regions that no longer meet. */
  lemma {:induction false} MergedCovers(text: string, sorted: seq<Region>)
    requires AllFit(text, sorted)
    requires forall j, k :: 0 <= j < k < |sorted| ==> sorted[j].start <= sorted[k].start
    ensures Apart(text, Merged(sorted), 0)
    ensures sorted != [] ==>
            Merged(sorted) != [] && Merged(sorted)[|Merged(sorted)| - 1].start <= sorted[|sorted| - 1].start
    ensures forall i :: Covers(Merged(sorted), i) <==> Covers(sorted, i)
  {
    hide Joined, Apart;
    if sorted == [] {
      EmptyApart(text);
    } else {
      var rest, r := sorted[..|sorted| - 1], sorted[|sorted| - 1];
      MergedCovers(text, rest);
      assert rest == [] || rest[|rest| - 1].start <= r.start;
      JoinedApart(text, Merged(rest), r);
      forall i
        ensures Covers(Merged(sorted), i) <==> Covers(sorted, i)
      {
        JoinedCovers(Merged(rest), r, i);
        OneMoreCovers(rest, r, i);
        assert rest + [r] == sorted;
      }
    }
  }

  lemma EmptyApart(text: string)
    ensures Apart(text, [], 0)
  {
  }

  lemma OneMoreCovers(rest: seq<Region>, r: Region, i: nat)
    ensures Covers(rest + [r], i) <==> Covers(rest, i) || In(r, i)
  {
    var all := rest + [r];
    assert all[|rest|] == r;
    if Covers(rest, i) {
      var k :| 0 <= k < |rest| && In(rest[k], i);
      assert In(all[k], i);
    }
  }

  lemma PrecedesIsOrder()
    ensures Sorting.StrictWeakOrder(Precedes)
  {
  }

  /** The merged code regions of a text. */
  ghost function Code(text: string): seq<Region> {
    Merged(Sorting.Sort(Precedes, CodeRegions(text)))
  }

  /** The merged regions cover exactly the positions in code, and no two of them meet. */
  lemma CodeCovers(text: string)
    ensures Apart(text, Code(text), 0)
    ensures forall i :: Covers(Code(text), i) <==> Covers(CodeRegions(text), i)
  {
    hide CodeRegions, Merged, Apart, Sorting.Sort, Covers;
    var regions := CodeRegions(text);
    var sorted := Sorting.Sort(Precedes, regions);
    CodeRegionsFit(text);
    PrecedesIsOrder();
    Sorting.SortSorts(Precedes, regions);
    Sorting.SortPermutes(Precedes, regions);
    Sorting.SameElements(sorted, regions);
    forall k | 0 <= k < |sorted|
      ensures Fits(text, sorted[k])
    {
      assert sorted[k] in regions;
    }
    MergedCovers(text, sorted);
    forall i
      ensures Covers(sorted, i) <==> Covers(regions, i)
    {
      SameCover(sorted, regions, i);
    }
  }

  lemma SameCover(a: seq<Region>, b: seq<Region>, i: nat)
    requires forall r :: r in a <==> r in b
    ensures Covers(a, i) <==> Covers(b, i)
  {
    if Covers(a, i) {
      var k :| 0 <= k < |a| && In(a[k], i);
      assert a[k] in b;
    }
    if Covers(b, i) {
      var k :| 0 <= k < |b| && In(b[k], i);
      assert b[k] in a;
    }
  }

  // ---------------------------------------------------------------- weaving

  /** Code copied, and everything between rewritten by `sub`. */
  function Woven(sub: string -> string, text: string, code: seq<Region>, cursor: nat): string
    requires Apart(text, code, cursor)
  {
    if code == [] then sub(text[cursor..])
    else
      sub(text[cursor..code[0].start]) + text[code[0].start..code[0].end]
      + Woven(sub, text, code[1..], code[0].end)
  }

  /** `sub_outside_code`, for whatever the pattern and its replacement do to one stretch of text. */
  ghost function Rewritten(sub: string -> string, text: string): string {
    CodeCovers(text);
    Woven(sub, text, Code(text), 0)
  }

  method SubOutsideCode(sub: string -> string, text: string) returns (out: string)
    ensures out == Rewritten(sub, text)
  {
    hide CodeRegions, Sorting.Sort, Joined;
    CodeCovers(text);
    var regions := FindCode(text);
    var blocked := Sorting.Sort(Precedes, regions);
    if blocked == [] {
      assert text[0..] == text;
      return sub(text);
    }
    var merged := MergeLoop(blocked);
    out := WeaveLoop(sub, text, merged);
  }

  lemma NothingMerged()
    ensures Merged([]) == []
  {
  }

  lemma MergedStep(blocked: seq<Region>, k: nat)
    requires k < |blocked|
    ensures Merged(blocked[..k + 1]) == Joined(Merged(blocked[..k]), blocked[k])
  {
    hide Joined;
    assert blocked[..k + 1][..k] == blocked[..k];
  }

  method MergeLoop(blocked: seq<Region>) returns (merged: seq<Region>)
    ensures merged == Merged(blocked)
  {
    hide Merged;
    merged := [];
    NothingMerged();
    assert blocked[..0] == [];
    for k := 0 to |blocked|
      invariant merged == Merged(blocked[..k])
    {
      var r := blocked[k];
      MergedStep(blocked, k);
      if merged != [] && r.start <= merged[|merged| - 1].end {
        var last := merged[|merged| - 1];
        merged := merged[|merged| - 1 := last.(end := if last.end < r.end then r.end else last.end)];
      } else {
        merged := merged + [r];
      }
    }
    assert blocked[..|blocked|] == blocked;
  }

  lemma RestApart(text: string, code: seq<Region>, cursor: nat)
    requires Apart(text, code, cursor) && code != []
    ensures cursor <= code[0].start <= code[0].end <= |text|
    ensures Apart(text, code[1..], code[0].end)
  {
  }

  lemma WovenStep(sub: string -> string, text: string, code: seq<Region>, cursor: nat)
    requires Apart(text, code, cursor) && code != []
    ensures cursor <= code[0].start <= code[0].end <= |text| && Apart(text, code[1..], code[0].end)
    ensures Woven(sub, text, code, cursor) ==
            sub(text[cursor..code[0].start]) + text[code[0].start..code[0].end] +
              Woven(sub, text, code[1..], code[0].end)
  {
    RestApart(text, code, cursor);
  }

  lemma WovenEnd(sub: string -> string, text: string, cursor: nat)
    requires Apart(text, [], cursor)
    ensures cursor <= |text| && Woven(sub, text, [], cursor) == sub(text[cursor..])
  {
  }

  method WeaveLoop(sub: string -> string, text: string, merged: seq<Region>) returns (out: string)
    requires Apart(text, merged, 0)
    ensures out == Woven(sub, text, merged, 0)
  {
    hide Apart, Woven;
    out := "";
    var cursor: nat := 0;
    assert merged[0..] == merged;
    for k := 0 to |merged|
      invariant Apart(text, merged[k..], cursor)
      invariant out + Woven(sub, text, merged[k..], cursor) == Woven(sub, text, merged, 0)
    {
      var m := merged[k];
      assert merged[k..][0] == m && merged[k..][1..] == merged[k + 1..];
      WovenStep(sub, text, merged[k..], cursor);
      var kept := sub(text[cursor..m.start]) + text[m.start..m.end];
      assert out + (kept + Woven(sub, text, merged[k + 1..], m.end)) ==
             (out + kept) + Woven(sub, text, merged[k + 1..], m.end);
      out := out + kept;
      cursor := m.end;
    }
    WovenEnd(sub, text, cursor);
    out := out + sub(text[cursor..]);
  }

  // ---------------------------------------------------------------- theorems

  lemma Rejoined(text: string, a: nat, b: nat, c: nat)
    requires a <= b <= c <= |text|
    ensures text[a..b] + text[b..c] + text[c..] == text[a..]
  {
  }

  /** A substitution that changes nothing leaves the whole document as it was. */
  lemma {:induction false} WovenOfIdentity(sub: string -> string, text: string, code: seq<Region>, cursor: nat)
    requires Apart(text, code, cursor)
    requires forall s :: sub(s) == s
    ensures Woven(sub, text, code, cursor) == text[cursor..]
  {
    if code != [] {
      RestApart(text, code, cursor);
      WovenOfIdentity(sub, text, code[1..], code[0].end);
      Rejoined(text, cursor, code[0].start, code[0].end);
      WovenStep(sub, text, code, cursor);
    } else {
      assert Woven(sub, text, code, cursor) == sub(text[cursor..]);
    }
  }

  /** Where position `pos` of the text, inside code, lands in the output. */
  function Place(sub: string -> string, text: string, code: seq<Region>, cursor: nat, pos: nat): int
    requires Apart(text, code, cursor)
  {
    if code == [] then 0
    else
      var before := |sub(text[cursor..code[0].start])|;
      if pos < code[0].end then before + (pos - code[0].start)
      else before + (code[0].end - code[0].start) + Place(sub, text, code[1..], code[0].end, pos)
  }

  lemma CoversRest(text: string, code: seq<Region>, cursor: nat, i: nat)
    requires Apart(text, code, cursor) && Covers(code, i)
    ensures code != []
    ensures if i < code[0].end then code[0].start <= i else Covers(code[1..], i)
  {
    var k :| 0 <= k < |code| && In(code[k], i);
    if k > 0 {
      assert code[1..][k - 1] == code[k];
    }
  }

  lemma InMiddle(a: string, b: string, c: string, i: nat)
    requires i < |b|
    ensures (a + b + c)[|a| + i] == b[i]
  {
  }

  lemma InLast(a: string, b: string, c: string, i: nat)
    requires i < |c|
    ensures (a + b + c)[|a| + |b| + i] == c[i]
  {
  }

  /** Every character of code is copied, to the place `Place` gives it. */
  lemma {:induction false} PlaceHolds(sub: string -> string, text: string, code: seq<Region>, cursor: nat, pos: nat)
    requires Apart(text, code, cursor) && Covers(code, pos)
    ensures pos < |text| && 0 <= Place(sub, text, code, cursor, pos) < |Woven(sub, text, code, cursor)|
    ensures Woven(sub, text, code, cursor)[Place(sub, text, code, cursor, pos)] == text[pos]
  {
    hide Covers, Apart, Woven;
    CoversRest(text, code, cursor, pos);
    WovenStep(sub, text, code, cursor);
    var first := code[0];
    var before, inside := sub(text[cursor..first.start]), text[first.start..first.end];
    var rest := Woven(sub, text, code[1..], first.end);
    if pos < first.end {
      InMiddle(before, inside, rest, pos - first.start);
    } else {
      PlaceHolds(sub, text, code[1..], first.end, pos);
      InLast(before, inside, rest, Place(sub, text, code[1..], first.end, pos));
    }
  }

  /** Code keeps its order. */
  lemma {:induction false} PlacesAscend(
    sub: string -> string, text: string, code: seq<Region>, cursor: nat, a: nat, b: nat)
    requires Apart(text, code, cursor) && Covers(code, a) && Covers(code, b) && a < b
    ensures Place(sub, text, code, cursor, a) < Place(sub, text, code, cursor, b)
    ensures b == a + 1 ==> Place(sub, text, code, cursor, b) == Place(sub, text, code, cursor, a) + 1
  {
    hide Covers;
    CoversRest(text, code, cursor, a);
    CoversRest(text, code, cursor, b);
    if a >= code[0].end {
      PlacesAscend(sub, text, code[1..], code[0].end, a, b);
    } else if b >= code[0].end {
      PlaceHolds(sub, text, code[1..], code[0].end, b);
      StartsLater(text, code, cursor, b);
    }
  }

  /** The regions do not meet, so a covered position past the first is not next to it. */
  lemma StartsLater(text: string, code: seq<Region>, cursor: nat, i: nat)
    requires Apart(text, code, cursor) && code != [] && Covers(code[1..], i)
    ensures i > code[0].end
  {
    var k :| 0 <= k < |code[1..]| && In(code[1..][k], i);
    assert code[1..][k] == code[k + 1];
  }

  lemma {:induction false} StretchMoves(sub: string -> string, text: string, code: seq<Region>, a: nat, b: nat)
    requires Apart(text, code, 0) && a <= b && (forall i :: a <= i <= b ==> Covers(code, i))
    ensures Place(sub, text, code, 0, b) == Place(sub, text, code, 0, a) + (b - a)
  {
    if a < b {
      StretchMoves(sub, text, code, a, b - 1);
      PlacesAscend(sub, text, code, 0, b - 1, b);
    }
  }

  /** Where a code position of the document lands in the rewritten document. */
  ghost function Landing(sub: string -> string, text: string, pos: nat): int {
    CodeCovers(text);
    Place(sub, text, Code(text), 0, pos)
  }

  /** Every code region, fenced or inline, stands verbatim in the rewritten document. */
  lemma CodeSurvives(sub: string -> string, text: string, k: nat)
    requires k < |CodeRegions(text)|
    ensures var r := CodeRegions(text)[k];
            forall pos :: r.start <= pos < r.end ==>
              && 0 <= Landing(sub, text, pos) < |Rewritten(sub, text)|
              && pos < |text| && Rewritten(sub, text)[Landing(sub, text, pos)] == text[pos]
              && Landing(sub, text, pos) == Landing(sub, text, r.start) + (pos - r.start)
  {
    hide CodeRegions, Code, Apart, Place, Woven;
    var regions := CodeRegions(text);
    var r, code := regions[k], Code(text);
    CodeCovers(text);
    forall pos | r.start <= pos < r.end
      ensures 0 <= Landing(sub, text, pos) < |Rewritten(sub, text)|
      ensures pos < |text| && Rewritten(sub, text)[Landing(sub, text, pos)] == text[pos]
      ensures Landing(sub, text, pos) == Landing(sub, text, r.start) + (pos - r.start)
    {
      forall i | r.start <= i <= pos
        ensures Covers(code, i)
      {
        assert In(regions[k], i);
      }
      PlaceHolds(sub, text, code, 0, pos);
      StretchMoves(sub, text, code, r.start, pos);
    }
  }

  /** Code stays in order: an earlier code position lands earlier. */
  lemma CodeKeepsOrder(sub: string -> string, text: string, a: nat, b: nat)
    requires Covers(CodeRegions(text), a) && Covers(CodeRegions(text), b) && a < b
    ensures Landing(sub, text, a) < Landing(sub, text, b)
  {
    hide CodeRegions, Code, Apart, Place, Covers;
    CodeCovers(text);
    PlacesAscend(sub, text, Code(text), 0, a, b);
  }

  /** A substitution that changes nothing gives the document back. */
  lemma RewrittenByIdentity(sub: string -> string, text: string)
    requires forall s :: sub(s) == s
    ensures Rewritten(sub, text) == text
  {
    hide CodeRegions, Code, Apart, Woven;
    CodeCovers(text);
    WovenOfIdentity(sub, text, Code(text), 0);
    assert text[0..] == text;
  }

  /** Two substitutions that agree on every stretch of text outside code. */
  ghost predicate AgreeOutside(f: string -> string, g: string -> string, text: string, code: seq<Region>) {
    forall a: nat, b: nat :: a <= b <= |text| && (forall i :: a <= i < b ==> !Covers(code, i)) ==>
      f(text[a..b]) == g(text[a..b])
  }

  lemma {:induction false} WovenSeesNoCode(
    f: string -> string, g: string -> string, text: string, all: seq<Region>, k: nat, cursor: nat)
    requires k <= |all| && Apart(text, all, 0) && Apart(text, all[k..], cursor)
    requires k > 0 ==> cursor == all[k - 1].end
    requires AgreeOutside(f, g, text, all)
    ensures Woven(f, text, all[k..], cursor) == Woven(g, text, all[k..], cursor)
    decreases |all| - k
  {
    hide AgreeOutside, Covers;
    var end := if k < |all| then all[k].start else |text|;
    assert k < |all| ==> all[k..][0] == all[k] && all[k..][1..] == all[k + 1..];
    forall i: nat | cursor <= i < end
      ensures !Covers(all, i)
    {
      GapIsNoCode(text, all, k, i);
    }
    AgreeHere(f, g, text, all, cursor, end);
    if k < |all| {
      WovenSeesNoCode(f, g, text, all, k + 1, all[k].end);
    } else {
      assert text[cursor..end] == text[cursor..];
    }
  }

  lemma GapIsNoCode(text: string, all: seq<Region>, k: nat, i: nat)
    requires k <= |all| && Apart(text, all, 0)
    requires k > 0 ==> all[k - 1].end <= i
    requires k < |all| ==> i < all[k].start
    ensures !Covers(all, i)
  {
    forall j | 0 <= j < |all|
      ensures !In(all[j], i)
    {
      if j < k {
        assert all[j].end <= all[k - 1].end;
      } else {
        assert all[k].start <= all[j].start;
      }
    }
  }

  lemma AgreeHere(f: string -> string, g: string -> string, text: string, code: seq<Region>, a: nat, b: nat)
    requires AgreeOutside(f, g, text, code) && a <= b <= |text|
    requires forall i: nat :: a <= i < b ==> !Covers(code, i)
    ensures f(text[a..b]) == g(text[a..b])
  {
    hide Covers;
  }

  /** What a substitution would do to code has no effect on the result. */
  lemma RewriteSeesNoCode(f: string -> string, g: string -> string, text: string)
    requires AgreeOutside(f, g, text, CodeRegions(text))
    ensures Rewritten(f, text) == Rewritten(g, text)
  {
    hide CodeRegions, Code, Apart, Covers, Woven;
    CodeCovers(text);
    var code := Code(text);
    assert AgreeOutside(f, g, text, code);
    assert code[0..] == code;
    WovenSeesNoCode(f, g, text, code, 0, 0);
  }
}

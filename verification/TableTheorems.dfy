/** What the scan promises: a file is reported exactly when six consecutive table values stand in it, as
    literals or as encoded bytes; printed table values are never missed. */
module TableTheorems {
  import opened Bytes
  import opened IntegerRuns
  import opened RunTheorems
  import opened TableScan

  // ---------------------------------------------------------------- the whole scan

  ghost predicate InText(data: bytes, w: Window) {
    exists s :: 0 <= s < |data| && Chain(data, s, w)
  }

  ghost predicate InBytes(data: bytes, w: Window) {
    exists e :: Contains(data, PackedAll(e, w))
  }

  /** Six consecutive values of an entry stand in the file. */
  ghost predicate HoldsTable(entries: seq<seq<int>>, data: bytes) {
    exists w, i :: InEntry(entries, w, i) && (InText(data, w) || InBytes(data, w))
  }

  /** The script's way from the table entries to the reports on one file. */
  method Scan(entries: seq<seq<int>>, data: bytes) returns (found: seq<Report>)
    ensures found != [] <==> HoldsTable(entries, data)
  {
    hide InEntry, TextHit, BinaryHit, AreKeys, AreWindows, InText, InBytes;
    var windows := ForbiddenWindows(entries);
    var keys := BinaryKeys(windows);
    WindowsAreRuns(entries, windows);
    found := ScanBytes(data, windows, keys);
    if found != [] {
      assert found[0] in found;
      ReportMeansTable(entries, windows, keys, data, found[0]);
    }
    if HoldsTable(entries, data) {
      var w, i :| InEntry(entries, w, i) && (InText(data, w) || InBytes(data, w));
      TableMeansHit(entries, windows, keys, data, w, i);
    }
  }

  lemma WindowsAreRuns(entries: seq<seq<int>>, windows: map<Window, nat>)
    requires AreWindows(entries, windows)
    ensures AllRuns(windows)
  {
  }

  lemma ReportMeansTable(entries: seq<seq<int>>, windows: map<Window, nat>, keys: Keys, data: bytes, r: Report)
    requires AreWindows(entries, windows) && AreKeys(windows, keys)
    requires r.TextRun? ==> TextHit(data, windows, r.line, r.entry)
    requires r.BinaryValues? ==> BinaryHit(data, keys, r.hit)
    ensures HoldsTable(entries, data)
  {
    hide InEntry, PackedAll, Chain, Contains;
    match r {
      case TextRun(line, entry) =>
        var w :| w in windows && windows[w] == entry && StandsOn(data, w, line);
        assert InEntry(entries, w, windows[w]) && InText(data, w);
      case BinaryValues(hit) =>
        var size: nat, at: nat :| KeyAt(data, keys, size, at) && HitAt(data, keys, size, at) == hit;
        var bs := data[at..at + size];
        assert size in keys && bs in keys[size] && keys[size][bs] == hit && size == |bs|;
        assert Spelled(windows, bs, hit);
        var w :| w in windows && Encodes(w, hit.encoding, bs) && hit.entry == windows[w];
        SliceIsContained(data, size, at);
        assert InEntry(entries, w, windows[w]) && InBytes(data, w);
    }
  }

  lemma SliceIsContained(data: bytes, size: nat, at: nat)
    requires at + size <= |data|
    ensures Contains(data, data[at..at + size])
  {
    assert OccursAt(data, data[at..at + size], at);
  }

  lemma TableMeansHit(entries: seq<seq<int>>, windows: map<Window, nat>, keys: Keys, data: bytes, w: Window, i: int)
    requires AreWindows(entries, windows) && AreKeys(windows, keys)
    requires InEntry(entries, w, i) && (InText(data, w) || InBytes(data, w))
    ensures (exists line, entry :: TextHit(data, windows, line, entry)) || exists hit :: BinaryHit(data, keys, hit)
  {
    hide InEntry, AreWindows, AreKeys, PackedAll, Chain, LineOf, Contains, HasKey;
    WindowListed(entries, windows, w, i);
    if InText(data, w) {
      var s :| 0 <= s < |data| && Chain(data, s, w);
      assert StandsOn(data, w, LineOf(data, s));
      assert TextHit(data, windows, LineOf(data, s), windows[w]);
    } else {
      var e :| Contains(data, PackedAll(e, w));
      var at := WhereContained(data, PackedAll(e, w));
      WindowKeyed(windows, keys, w, e);
      KeyFound(data, keys, PackedAll(e, w), at);
    }
  }

  lemma WindowListed(entries: seq<seq<int>>, windows: map<Window, nat>, w: Window, i: int)
    requires AreWindows(entries, windows) && InEntry(entries, w, i)
    ensures w in windows
  {
  }

  lemma WindowKeyed(windows: map<Window, nat>, keys: Keys, w: Window, e: Encoding)
    requires AreKeys(windows, keys) && w in windows
    ensures HasKey(keys, PackedAll(e, w))
  {
    hide HasKey;
  }

  lemma KeyFound(data: bytes, keys: Keys, bs: bytes, at: nat)
    requires HasKey(keys, bs) && at + |bs| <= |data| && data[at..at + |bs|] == bs
    ensures exists hit :: BinaryHit(data, keys, hit)
  {
    assert KeyAt(data, keys, |bs|, at);
    FoundHere(data, keys, |bs|, at);
  }

  lemma WhereContained(data: bytes, bs: bytes) returns (at: nat)
    requires Contains(data, bs)
    ensures at + |bs| <= |data| && data[at..at + |bs|] == bs
  {
    var x :| 0 <= x <= |data| && OccursAt(data, bs, x);
    at := x;
  }

  // ---------------------------------------------------------------- printed values

  predicate AllDigits(t: bytes) {
    t != [] && forall k :: 0 <= k < |t| ==> IsDigit(t[k])
  }

  /** `t` is the number `v` in decimal, leading zeros allowed. */
  predicate Spells(t: bytes, v: int) {
    if t != [] && t[0] == MINUS then AllDigits(t[1..]) && v == -Decimal(t[1..]) else AllDigits(t) && v == Decimal(t)
  }

  predicate Gap(g: bytes) {
    g != [] && forall k :: 0 <= k < |g| ==> IsSeparator(g[k])
  }

  /** Numbers with gaps between them, and `post` after the last. */
  function Laid(texts: seq<bytes>, gaps: seq<bytes>, post: bytes): bytes
    requires texts != [] && |gaps| == |texts| - 1
  {
    if |texts| == 1 then texts[0] + post else texts[0] + gaps[0] + Laid(texts[1..], gaps[1..], post)
  }

  /** The file goes on with `t` at `s`. */
  predicate GoesOn(b: bytes, s: nat, t: bytes) {
    s <= |b| && b[s..] == t
  }

  lemma GoesOnSplit(b: bytes, s: nat, t: bytes, u: bytes)
    requires GoesOn(b, s, t + u)
    ensures s + |t| <= |b| && b[s..s + |t|] == t && GoesOn(b, s + |t|, u)
  {
    assert b[s..][..|t|] == t;
    assert b[s..][|t|..] == u;
  }

  lemma {:induction false} DigitsReach(b: bytes, i: nat, j: nat)
    requires i <= j <= |b| && (forall k :: i <= k < j ==> IsDigit(b[k])) && (j < |b| ==> !IsDigit(b[j]))
    ensures DigitsEnd(b, i) == j
    decreases j - i
  {
    if i < j {
      DigitsReach(b, i + 1, j);
    }
  }

  predicate ClearAt(b: bytes, i: nat) {
    i < |b| ==> IsSeparator(b[i])
  }

  /** A number set off by separators, or by the ends of the file, is a literal. */
  lemma SpelledIsLiteral(b: bytes, s: nat, t: bytes, v: int)
    requires s + |t| <= |b| && b[s..s + |t|] == t && Spells(t, v) && InRange(v)
    requires (s > 0 ==> ClearAt(b, s - 1)) && ClearAt(b, s + |t|)
    ensures s < |b| && IsLiteral(b, s) && NumberValue(b, s) == v && NumberEnd(b, s) == s + |t|
    ensures !IsSeparator(b[s])
  {
    hide Decimal, DigitsEnd, IsSeparator;
    var end := s + |t|;
    var first := if t[0] == MINUS then s + 1 else s;
    DigitsStand(b, s, t, v);
    SeparatorsAreApart(b, s, end);
    DigitsReach(b, first, end);
  }

  lemma DigitsStand(b: bytes, s: nat, t: bytes, v: int)
    requires s + |t| <= |b| && b[s..s + |t|] == t && Spells(t, v)
    ensures t != [] && s < |b| && b[s] == t[0]
    ensures var first := if t[0] == MINUS then s + 1 else s;
            var end := s + |t|;
            && first < end && b[first..end] == (if t[0] == MINUS then t[1..] else t)
            && forall k :: first <= k < end ==> IsDigit(b[k])
  {
    hide Decimal;
    var end := s + |t|;
    assert forall k :: s <= k < end ==> b[k] == b[s..end][k - s];
  }

  lemma SeparatorsAreApart(b: bytes, s: nat, end: nat)
    requires s < end <= |b|
    requires (s > 0 ==> ClearAt(b, s - 1)) && ClearAt(b, end)
    requires IsDigit(b[s]) || b[s] == MINUS
    ensures s > 0 ==> !TouchesWord(b[s - 1]) && b[s - 1] != MINUS
    ensures end < |b| ==> !TouchesWord(b[end]) && !IsDigit(b[end])
    ensures !IsSeparator(b[s])
  {
  }

  lemma GapIsSkipped(b: bytes, i: nat, g: bytes)
    requires i + |g| < |b| && b[i..i + |g|] == g && Gap(g) && !IsSeparator(b[i + |g|])
    ensures SeparatorsEnd(b, i) == i + |g| && IsSeparator(b[i]) && ClearAt(b, i + |g| - 1)
  {
    assert forall k :: 0 <= k < |g| ==> b[i + k] == b[i..i + |g|][k] == g[k];
    forall k | i <= k < i + |g|
      ensures IsSeparator(b[k])
    {
      assert b[k] == g[k - i];
    }
    SeparatorsReach(b, i, i + |g|);
  }

  ghost predicate Legible(texts: seq<bytes>, gaps: seq<bytes>, values: seq<int>) {
    && texts != [] && |gaps| == |texts| - 1 && |values| == |texts|
    && (forall k :: 0 <= k < |texts| ==> Spells(texts[k], values[k]) && InRange(values[k]))
    && (forall k :: 0 <= k < |gaps| ==> Gap(gaps[k]))
  }

  lemma LegibleRest(texts: seq<bytes>, gaps: seq<bytes>, values: seq<int>)
    requires Legible(texts, gaps, values) && |texts| > 1
    ensures Legible(texts[1..], gaps[1..], values[1..])
  {
    hide Spells, Gap;
  }

  lemma FirstOfNumber(t: bytes, v: int)
    requires Spells(t, v)
    ensures t != [] && !IsSeparator(t[0])
  {
    hide Decimal;
  }

  lemma LaidStart(texts: seq<bytes>, gaps: seq<bytes>, post: bytes)
    requires texts != [] && |gaps| == |texts| - 1 && texts[0] != []
    ensures Laid(texts, gaps, post) != [] && Laid(texts, gaps, post)[0] == texts[0][0]
  {
  }

  /** Numbers laid out with gaps are a chain of literals. */
  lemma {:induction false} LaidIsChain(
    b: bytes, s: nat, texts: seq<bytes>, gaps: seq<bytes>, values: seq<int>, post: bytes)
    requires Legible(texts, gaps, values) && GoesOn(b, s, Laid(texts, gaps, post))
    requires (s > 0 ==> ClearAt(b, s - 1)) && (post != [] ==> IsSeparator(post[0]))
    ensures Chain(b, s, values)
    decreases |texts|
  {
    hide IsLiteral, Spells, Gap, NumberValue, NumberEnd, NumberStarts, SeparatorsEnd, IsSeparator, Chain, Laid, GoesOn;
    LaidStep(texts, gaps, post);
    var t := texts[0];
    assert Spells(t, values[0]);
    if |texts| == 1 {
      GoesOnSplit(b, s, t, post);
      AfterIsClear(b, s + |t|, post);
      SpelledIsLiteral(b, s, t, values[0]);
      ChainStep(b, s, values);
    } else {
      var rest := Laid(texts[1..], gaps[1..], post);
      var g := gaps[0];
      LegibleRest(texts, gaps, values);
      FirstOfNumber(texts[1], values[1]);
      LaidStart(texts[1..], gaps[1..], post);
      NextAfterGap(b, s, t, g, rest);
      GapIsSkipped(b, s + |t|, g);
      SpelledIsLiteral(b, s, t, values[0]);
      LaidIsChain(b, s + |t| + |g|, texts[1..], gaps[1..], values[1..], post);
      ChainStep(b, s, values);
    }
  }

  lemma LaidStep(texts: seq<bytes>, gaps: seq<bytes>, post: bytes)
    requires texts != [] && |gaps| == |texts| - 1
    ensures Laid(texts, gaps, post) ==
            if |texts| == 1 then texts[0] + post else texts[0] + gaps[0] + Laid(texts[1..], gaps[1..], post)
  {
  }

  lemma ChainStep(b: bytes, s: nat, values: seq<int>)
    requires values != [] && s < |b| && IsLiteral(b, s) && NumberValue(b, s) == values[0]
    requires |values| == 1 || Chain(b, SeparatorsEnd(b, NumberEnd(b, s)), values[1..])
    ensures Chain(b, s, values)
  {
    hide NumberValue, SeparatorsEnd, NumberEnd, Touches;
  }

  lemma AfterIsClear(b: bytes, i: nat, post: bytes)
    requires GoesOn(b, i, post) && (post != [] ==> IsSeparator(post[0]))
    ensures ClearAt(b, i)
  {
    hide IsSeparator;
    assert i < |b| ==> b[i..][0] == b[i];
  }

  lemma NextAfterGap(b: bytes, s: nat, t: bytes, g: bytes, rest: bytes)
    requires GoesOn(b, s, t + g + rest) && rest != [] && !IsSeparator(rest[0])
    ensures s + |t| + |g| < |b| && b[s..s + |t|] == t && b[s + |t|..s + |t| + |g|] == g
    ensures !IsSeparator(b[s + |t| + |g|]) && GoesOn(b, s + |t| + |g|, rest)
  {
    hide IsSeparator;
    GoesOnSplit(b, s, t + g, rest);
    assert t + g + rest == t + (g + rest);
    GoesOnSplit(b, s, t, g + rest);
    GoesOnSplit(b, s + |t|, g, rest);
    assert b[s + |t| + |g|..][0] == b[s + |t| + |g|];
  }

  lemma {:induction false} ChainPrefix(b: bytes, s: nat, values: seq<int>, n: nat)
    requires Chain(b, s, values) && n <= |values|
    ensures Chain(b, s, values[..n])
    decreases n
  {
    hide NumberValue, SeparatorsEnd, NumberEnd, Touches;
    if n > 0 {
      var next := SeparatorsEnd(b, NumberEnd(b, s));
      ChainPrefix(b, next, values[1..], n - 1);
      assert values[..n][1..] == values[1..][..n - 1];
    }
  }

  /** Six or more consecutive values of an entry, printed anywhere in a file with separators around and
      between them, are in the file for the scan: it reports every such file. */
  lemma PrintedIsReported(
    entries: seq<seq<int>>, i: nat, k: nat, values: seq<int>,
    pre: bytes, texts: seq<bytes>, gaps: seq<bytes>, post: bytes)
    requires i < |entries| && k + |values| <= |entries[i]| && values == entries[i][k..k + |values|] && |values| >= RUN
    requires Legible(texts, gaps, values)
    requires (pre != [] ==> IsSeparator(pre[|pre| - 1])) && (post != [] ==> IsSeparator(post[0]))
    ensures HoldsTable(entries, pre + Laid(texts, gaps, post))
  {
    hide Spells, Gap, Laid, Chain, IsSeparator;
    var b := pre + Laid(texts, gaps, post);
    var s := |pre|;
    assert GoesOn(b, s, Laid(texts, gaps, post));
    assert s > 0 ==> b[s - 1] == pre[s - 1];
    LaidIsChain(b, s, texts, gaps, values, post);
    ChainPrefix(b, s, values, RUN);
    var w := values[..RUN];
    ChainIsInside(b, s, w);
    assert WindowOf(entries[i], k) == w;
    assert InEntry(entries, w, i);
    assert InText(b, w);
  }

  lemma ChainIsInside(b: bytes, s: nat, w: Window)
    requires Chain(b, s, w) && w != []
    ensures s < |b|
  {
  }
}

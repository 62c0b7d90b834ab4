/** `no-itu-values.py`: the scan of one file's bytes for the values of a table. */
module TableScan {
  import opened Options
  import opened Bytes
  import opened IntegerRuns
  import opened RunTheorems

  type Window = seq<int>

  // ---------------------------------------------------------------- forbidden windows

  predicate Fits16(v: int) {
    -0x8000 <= v < 0x8000
  }

  function WindowOf(values: seq<int>, k: nat): Window
    requires k <= |values| - RUN
  {
    values[k..k + RUN]
  }

  /** `w` is six consecutive values of entry `i`. */
  ghost predicate InEntry(entries: seq<seq<int>>, w: Window, i: int) {
    0 <= i < |entries| && exists k :: 0 <= k <= |entries[i]| - RUN && WindowOf(entries[i], k) == w
  }

  /** The windows of the entries, each with the first entry that has it. */
  ghost predicate AreWindows(entries: seq<seq<int>>, windows: map<Window, nat>) {
    && (forall w, i :: InEntry(entries, w, i) ==> w in windows && windows[w] <= i)
    && (forall w :: w in windows ==> InEntry(entries, w, windows[w]))
  }

  /** Like `AreWindows`, with entry `i` done up to window `k`. */
  ghost predicate AreWindowsUpTo(entries: seq<seq<int>>, windows: map<Window, nat>, i: nat, k: nat)
    requires i < |entries|
  {
    && (forall w, j :: InEntry(entries, w, j) && 0 <= j < i ==> w in windows && windows[w] <= j)
    && (forall x :: 0 <= x < k && x <= |entries[i]| - RUN ==>
          WindowOf(entries[i], x) in windows && windows[WindowOf(entries[i], x)] <= i)
    && (forall w :: w in windows ==> InEntry(entries, w, windows[w]) && windows[w] <= i)
  }

  method ForbiddenWindows(entries: seq<seq<int>>) returns (windows: map<Window, nat>)
    ensures AreWindows(entries, windows)
  {
    hide InEntry;
    windows := map[];
    for i := 0 to |entries|
      invariant forall w, j :: InEntry(entries, w, j) && 0 <= j < i ==> w in windows && windows[w] <= j
      invariant forall w :: w in windows ==> InEntry(entries, w, windows[w]) && windows[w] < i
    {
      var values := entries[i];
      var k := 0;
      while k < |values| - RUN + 1
        invariant 0 <= k && (k <= |values| - RUN + 1 || k == 0)
        invariant AreWindowsUpTo(entries, windows, i, k)
      {
        var w := WindowOf(values, k);
        WindowHere(entries, i, k);
        if w !in windows {
          windows := windows[w := i];
        }
        k := k + 1;
      }
      EntryDone(entries, windows, i, k);
    }
    forall w, i | InEntry(entries, w, i)
      ensures w in windows && windows[w] <= i
    {
      EntryIndex(entries, w, i);
    }
  }

  lemma WindowHere(entries: seq<seq<int>>, i: nat, k: nat)
    requires i < |entries| && k <= |entries[i]| - RUN
    ensures InEntry(entries, WindowOf(entries[i], k), i)
  {
  }

  lemma EntryIndex(entries: seq<seq<int>>, w: Window, i: int)
    requires InEntry(entries, w, i)
    ensures 0 <= i < |entries|
  {
  }

  lemma EntryDone(entries: seq<seq<int>>, windows: map<Window, nat>, i: nat, k: nat)
    requires i < |entries| && AreWindowsUpTo(entries, windows, i, k) && k >= |entries[i]| - RUN + 1
    ensures forall w, j :: InEntry(entries, w, j) && 0 <= j <= i ==> w in windows && windows[w] <= j
  {
    forall w, j | InEntry(entries, w, j) && 0 <= j <= i
      ensures w in windows && windows[w] <= j
    {
      if j == i {
        var x :| 0 <= x <= |entries[i]| - RUN && WindowOf(entries[i], x) == w;
      }
    }
  }

  // ---------------------------------------------------------------- encodings

  datatype Encoding = Le16 | Be16 | Le32

  const ENCODINGS := [Le16, Be16, Le32]

  function Width(e: Encoding): nat {
    if e.Le32? then 4 else 2
  }

  function Order(e: Encoding): Endian {
    if e.Be16? then Big else Little
  }

  /** Two's complement, as `struct.pack` writes a signed value. */
  function Packed(e: Encoding, v: int): (bs: bytes)
    ensures |bs| == Width(e)
  {
    Put(Order(e), Width(e), v % Capacity(Width(e)))
  }

  function PackedAll(e: Encoding, w: Window): (bs: bytes)
    ensures |bs| == Width(e) * |w|
  {
    if w == [] then [] else Packed(e, w[0]) + PackedAll(e, w[1..])
  }

  /** The entry a window is from, and the encoding it was found in. */
  datatype Hit = Hit(entry: nat, encoding: Encoding)

  type Keys = map<nat, map<bytes, Hit>>

  predicate HasKey(keys: Keys, bs: bytes) {
    |bs| in keys && bs in keys[|bs|]
  }

  /** `bs` is the window `w` in encoding `e`. */
  predicate Encodes(w: Window, e: Encoding, bs: bytes) {
    bs == PackedAll(e, w)
  }

  /** The hit of a key is the entry and the encoding of a window it spells. */
  ghost predicate Spelled(windows: map<Window, nat>, bs: bytes, hit: Hit) {
    exists w :: w in windows && Encodes(w, hit.encoding, bs) && hit.entry == windows[w]
  }

  /** The keys are the encodings of the windows, filed by their length. */
  ghost predicate AreKeys(windows: map<Window, nat>, keys: Keys) {
    && (forall w: Window, e: Encoding :: w in windows ==> HasKey(keys, PackedAll(e, w)))
    && (forall n: nat, bs: bytes :: n in keys && bs in keys[n] ==> n == |bs| && Spelled(windows, bs, keys[n][bs]))
  }

  function Filed(keys: Keys, bs: bytes, hit: Hit): Keys {
    keys[|bs| := (if |bs| in keys then keys[|bs|] else map[])[bs := hit]]
  }

  ghost predicate AllSpelled(windows: map<Window, nat>, keys: Keys) {
    forall n, bs :: n in keys && bs in keys[n] ==> n == |bs| && Spelled(windows, bs, keys[n][bs])
  }

  ghost predicate AllFiled(keys: Keys, w: Window) {
    forall e :: HasKey(keys, PackedAll(e, w))
  }

  /** `binary_keys`. The windows come in no particular order. */
  method BinaryKeys(windows: map<Window, nat>) returns (keys: Keys)
    ensures AreKeys(windows, keys)
  {
    hide Spelled, PackedAll, HasKey, AllFiled;
    keys := map[];
    var todo := windows.Keys;
    while todo != {}
      invariant todo <= windows.Keys
      invariant AllSpelled(windows, keys)
      invariant forall w :: w in windows && w !in todo ==> AllFiled(keys, w)
      decreases |todo|
    {
      var w :| w in todo;
      todo := todo - {w};
      keys := FileWindow(windows, keys, w);
    }
    forall w, e | w in windows
      ensures HasKey(keys, PackedAll(e, w))
    {
      FiledHas(keys, w, e);
    }
  }

  lemma FiledHas(keys: Keys, w: Window, e: Encoding)
    requires AllFiled(keys, w)
    ensures HasKey(keys, PackedAll(e, w))
  {
  }

  /** File one window in each encoding. */
  method FileWindow(windows: map<Window, nat>, before: Keys, w: Window) returns (keys: Keys)
    requires w in windows && AllSpelled(windows, before)
    ensures AllSpelled(windows, keys) && AllFiled(keys, w)
    ensures forall v :: AllFiled(before, v) ==> AllFiled(keys, v)
  {
    hide PackedAll, AllSpelled, Filed, HasKey;
    keys := before;
    for k := 0 to 3
      invariant AllSpelled(windows, keys)
      invariant forall bs :: HasKey(before, bs) ==> HasKey(keys, bs)
      invariant forall x :: 0 <= x < k ==> HasKey(keys, PackedAll(ENCODINGS[x], w))
    {
      var e := ENCODINGS[k];
      FileOne(windows, keys, w, e);
      keys := Filed(keys, PackedAll(e, w), Hit(windows[w], e));
    }
    AllEncodings(keys, w);
  }

  lemma FileOne(windows: map<Window, nat>, keys: Keys, w: Window, e: Encoding)
    requires w in windows && AllSpelled(windows, keys)
    ensures var more := Filed(keys, PackedAll(e, w), Hit(windows[w], e));
            && AllSpelled(windows, more) && HasKey(more, PackedAll(e, w))
            && forall bs :: HasKey(keys, bs) ==> HasKey(more, bs)
  {
    hide PackedAll, Spelled;
    SpelledOne(windows, w, e);
  }

  lemma SpelledOne(windows: map<Window, nat>, w: Window, e: Encoding)
    requires w in windows
    ensures Spelled(windows, PackedAll(e, w), Hit(windows[w], e))
  {
    assert Encodes(w, e, PackedAll(e, w));
  }

  lemma AllEncodings(keys: Keys, w: Window)
    requires forall x :: 0 <= x < 3 ==> HasKey(keys, PackedAll(ENCODINGS[x], w))
    ensures forall e :: HasKey(keys, PackedAll(e, w))
  {
    hide PackedAll;
    forall e
      ensures HasKey(keys, PackedAll(e, w))
    {
      var x := match e case Le16 => 0 case Be16 => 1 case Le32 => 2;
      assert ENCODINGS[x] == e;
    }
  }

  // ---------------------------------------------------------------- the scan

  datatype Report = TextRun(line: nat, entry: nat) | BinaryValues(hit: Hit)

  /** The window stands in the text, its first value on line `line`. */
  ghost predicate StandsOn(data: bytes, w: Window, line: nat) {
    exists s :: 0 <= s < |data| && Chain(data, s, w) && LineOf(data, s) == line
  }

  /** Some window of entry `entry` stands in the text, its first value on line `line`. */
  ghost predicate TextHit(data: bytes, windows: map<Window, nat>, line: nat, entry: nat) {
    exists w :: w in windows && windows[w] == entry && StandsOn(data, w, line)
  }

  predicate KeyAt(data: bytes, keys: Keys, size: nat, at: nat) {
    at + size <= |data| && size in keys && data[at..at + size] in keys[size]
  }

  function HitAt(data: bytes, keys: Keys, size: nat, at: nat): Hit
    requires KeyAt(data, keys, size, at)
  {
    keys[size][data[at..at + size]]
  }

  /** A key that stands somewhere in the bytes gives this hit. */
  ghost predicate BinaryHit(data: bytes, keys: Keys, hit: Hit) {
    exists size: nat, at: nat :: KeyAt(data, keys, size, at) && HitAt(data, keys, size, at) == hit
  }

  /** The values of the run's literals from `k` to `k + RUN`. */
  function RunWindow(run: seq<Literal>, k: nat): Window
    requires k <= |run| - RUN
  {
    Values(run[k..k + RUN])
  }

  /** The first window of the run, at `k` or later, that is forbidden. */
  function FirstForbidden(run: seq<Literal>, windows: map<Window, nat>, k: nat): (at: Option<nat>)
    ensures at.Some? ==> k <= at.value <= |run| - RUN && RunWindow(run, at.value) in windows
    ensures at.Some? ==> forall j :: k <= j < at.value ==> RunWindow(run, j) !in windows
    ensures at.None? ==> forall j :: k <= j <= |run| - RUN ==> RunWindow(run, j) !in windows
    decreases |run| - k
  {
    if k > |run| - RUN then None
    else if RunWindow(run, k) in windows then Some(k)
    else FirstForbidden(run, windows, k + 1)
  }

  method FirstWindow(run: seq<Literal>, windows: map<Window, nat>) returns (at: Option<nat>)
    ensures at == FirstForbidden(run, windows, 0)
  {
    var k := 0;
    while k < |run| - RUN + 1
      invariant FirstForbidden(run, windows, 0) == FirstForbidden(run, windows, k)
    {
      if RunWindow(run, k) in windows {
        return Some(k);
      }
      k := k + 1;
    }
    return None;
  }

  /** The report on one run: its first forbidden window, if it has one. */
  function RunReport(run: seq<Literal>, windows: map<Window, nat>): seq<Report> {
    match FirstForbidden(run, windows, 0)
    case None => []
    case Some(k) => [TextRun(run[k].line, windows[RunWindow(run, k)])]
  }

  /** One report for each run that holds a forbidden window, in the order of the runs. */
  function TextReports(runs: seq<seq<Literal>>, windows: map<Window, nat>): seq<Report> {
    if runs == [] then [] else TextReports(runs[..|runs| - 1], windows) + RunReport(runs[|runs| - 1], windows)
  }

  ghost predicate AllRuns(windows: map<Window, nat>) {
    forall w :: w in windows ==> |w| == RUN
  }

  method ScanText(data: bytes, windows: map<Window, nat>) returns (found: seq<Report>)
    requires AllRuns(windows)
    ensures found == TextReports(Runs(data, 0, [], 1), windows)
    ensures forall r :: r in found ==> r.TextRun? && TextHit(data, windows, r.line, r.entry)
    ensures found == [] ==> forall line, entry :: !TextHit(data, windows, line, entry)
  {
    hide TextHit, Runs, StandsOn, AllRuns, FirstForbidden;
    var runs := FindRuns(data);
    found := [];
    for r := 0 to |runs|
      invariant found == TextReports(runs[..r], windows)
      invariant forall x :: x in found ==> x.TextRun? && TextHit(data, windows, x.line, x.entry)
      invariant found == [] ==> forall x :: 0 <= x < r ==> NoWindow(runs[x], windows)
    {
      assert runs[..r + 1][..r] == runs[..r];
      var at := FirstWindow(runs[r], windows);
      if at.Some? {
        var w := RunWindow(runs[r], at.value);
        WindowIsHit(data, windows, r, at.value);
        found := found + [TextRun(runs[r][at.value].line, windows[w])];
      }
    }
    assert runs[..|runs|] == runs;
    if found == [] {
      NoWindowNoHit(data, windows);
    }
  }

  ghost predicate NoWindow(run: seq<Literal>, windows: map<Window, nat>) {
    forall j :: 0 <= j <= |run| - RUN ==> RunWindow(run, j) !in windows
  }

  lemma WindowIsHit(data: bytes, windows: map<Window, nat>, r: nat, k: nat)
    requires r < |Runs(data, 0, [], 1)| && k <= |Runs(data, 0, [], 1)[r]| - RUN
    requires RunWindow(Runs(data, 0, [], 1)[r], k) in windows
    ensures var run := Runs(data, 0, [], 1)[r]; TextHit(data, windows, run[k].line, windows[RunWindow(run, k)])
  {
    hide Runs, Chain, LineOf;
    var run := Runs(data, 0, [], 1)[r];
    var w := RunWindow(run, k);
    assert WindowAt(run, k, w, run[k].line);
    WindowIff(data, w, run[k].line);
    assert StandsOn(data, w, run[k].line);
  }

  lemma WindowFound(run: seq<Literal>, k: int, w: Window, line: nat, windows: map<Window, nat>)
    requires WindowAt(run, k, w, line) && |w| == RUN && w in windows
    ensures !NoWindow(run, windows)
  {
    assert RunWindow(run, k) == w;
  }

  lemma NoWindowNoHit(data: bytes, windows: map<Window, nat>)
    requires AllRuns(windows)
    requires forall x :: 0 <= x < |Runs(data, 0, [], 1)| ==> NoWindow(Runs(data, 0, [], 1)[x], windows)
    ensures forall line, entry :: !TextHit(data, windows, line, entry)
  {
    hide Runs, Chain, LineOf, NoWindow, WindowAt;
    forall line, entry
      ensures !TextHit(data, windows, line, entry)
    {
      if TextHit(data, windows, line, entry) {
        var w :| w in windows && windows[w] == entry && StandsOn(data, w, line);
        var s :| 0 <= s < |data| && Chain(data, s, w) && LineOf(data, s) == line;
        ChainIsWindow(data, w, s);
        var runs := Runs(data, 0, [], 1);
        assert HasWindow(runs, w, line);
        var r, k :| 0 <= r < |runs| && WindowAt(runs[r], k, w, line);
        WindowFound(runs[r], k, w, line, windows);
      }
    }
  }

  /** The loop over the keys, filed by length, in no particular order. */
  method ScanBinary(data: bytes, keys: Keys) returns (found: seq<Report>)
    ensures forall r :: r in found ==> r.BinaryValues? && BinaryHit(data, keys, r.hit)
    ensures forall hit :: BinaryHit(data, keys, hit) ==> BinaryValues(hit) in found
    ensures forall i, j :: 0 <= i < j < |found| ==> found[i] != found[j]
  {
    hide KeyAt;
    var seen: set<Hit> := {};
    found := [];
    var todo := keys.Keys;
    NoKeyOutside(data, keys);
    while todo != {}
      invariant todo <= keys.Keys
      invariant Recorded(found, seen)
      invariant forall hit :: hit in seen ==> BinaryHit(data, keys, hit)
      invariant forall size: nat, at: nat :: KeyAt(data, keys, size, at) && size !in todo ==>
                HitAt(data, keys, size, at) in seen
      decreases |todo|
    {
      var size :| size in todo;
      todo := todo - {size};
      found, seen := ScanSize(data, keys, size, found, seen);
    }
    forall hit | BinaryHit(data, keys, hit)
      ensures BinaryValues(hit) in found
    {
      var size: nat, at: nat :| KeyAt(data, keys, size, at) && HitAt(data, keys, size, at) == hit;
      assert HitAt(data, keys, size, at) in seen;
    }
  }

  lemma NoKeyOutside(data: bytes, keys: Keys)
    ensures forall size: nat, at: nat :: KeyAt(data, keys, size, at) ==> size in keys
  {
  }

  /** What is reported is what was seen, each hit once. */
  ghost predicate Recorded(found: seq<Report>, seen: set<Hit>) {
    && (forall r :: r in found ==> r.BinaryValues? && r.hit in seen)
    && (forall hit :: hit in seen ==> BinaryValues(hit) in found)
    && (forall i, j :: 0 <= i < j < |found| ==> found[i] != found[j])
  }

  lemma RecordOne(found: seq<Report>, seen: set<Hit>, hit: Hit)
    requires Recorded(found, seen) && hit !in seen
    ensures Recorded(found + [BinaryValues(hit)], seen + {hit})
  {
  }

  method ScanSize(data: bytes, keys: Keys, size: nat, before: seq<Report>, seenBefore: set<Hit>)
    returns (found: seq<Report>, seen: set<Hit>)
    requires size in keys && Recorded(before, seenBefore)
    requires forall hit :: hit in seenBefore ==> BinaryHit(data, keys, hit)
    ensures Recorded(found, seen) && seenBefore <= seen
    ensures forall hit :: hit in seen ==> BinaryHit(data, keys, hit)
    ensures forall at: nat :: KeyAt(data, keys, size, at) ==> HitAt(data, keys, size, at) in seen
  {
    hide Recorded, BinaryHit;
    found, seen := before, seenBefore;
    var at := 0;
    while at < |data| - size + 1
      invariant 0 <= at
      invariant Recorded(found, seen) && seenBefore <= seen
      invariant forall hit :: hit in seen ==> BinaryHit(data, keys, hit)
      invariant forall x :: 0 <= x < at && KeyAt(data, keys, size, x) ==> HitAt(data, keys, size, x) in seen
    {
      if data[at..at + size] in keys[size] {
        var hit := keys[size][data[at..at + size]];
        FoundHere(data, keys, size, at);
        if hit !in seen {
          RecordOne(found, seen, hit);
          seen := seen + {hit};
          found := found + [BinaryValues(hit)];
        }
      }
      at := at + 1;
    }
  }

  lemma FoundHere(data: bytes, keys: Keys, size: nat, at: nat)
    requires KeyAt(data, keys, size, at)
    ensures BinaryHit(data, keys, HitAt(data, keys, size, at))
  {
  }

  /** What the report says is in the file. */
  ghost predicate IsTrue(data: bytes, windows: map<Window, nat>, keys: Keys, r: Report) {
    match r
    case TextRun(line, entry) => TextHit(data, windows, line, entry)
    case BinaryValues(hit) => BinaryHit(data, keys, hit)
  }

  /** `scan_bytes`. */
  method ScanBytes(data: bytes, windows: map<Window, nat>, keys: Keys) returns (found: seq<Report>)
    requires AllRuns(windows)
    ensures var inText := TextReports(Runs(data, 0, [], 1), windows);
            inText <= found && OnlyBinary(found[|inText|..])
    ensures forall r :: r in found ==> IsTrue(data, windows, keys, r)
    ensures forall hit :: BinaryHit(data, keys, hit) ==> BinaryValues(hit) in found
    ensures (exists line, entry :: TextHit(data, windows, line, entry)) ==> exists r :: r in found && r.TextRun?
  {
    hide TextHit, BinaryHit, TextReports, Runs;
    var inText := ScanText(data, windows);
    var inBytes := ScanBinary(data, keys);
    found := inText + inBytes;
    assert found[|inText|..] == inBytes;
    if inText != [] {
      assert inText[0] in found;
    }
  }

  /** Reports of encoded values, each hit once. */
  ghost predicate OnlyBinary(reports: seq<Report>) {
    && (forall r :: r in reports ==> r.BinaryValues?)
    && forall i, j :: 0 <= i < j < |reports| ==> reports[i] != reports[j]
  }

  // ---------------------------------------------------------------- what the encodings spell

  /** Windows are encoded value after value. */
  lemma {:induction false} PackedOfConcat(e: Encoding, a: Window, b: Window)
    ensures PackedAll(e, a + b) == PackedAll(e, a) + PackedAll(e, b)
  {
    hide Packed, Width, PackedAll;
    if a == [] {
      assert a + b == b;
      PackedNone(e);
    } else {
      PackedOfConcat(e, a[1..], b);
      PackedStep(e, a);
      PackedStep(e, a + b);
      assert (a + b)[1..] == a[1..] + b;
    }
  }

  lemma PackedNone(e: Encoding)
    ensures PackedAll(e, []) == []
  {
    hide Packed, Width;
  }

  lemma PackedStep(e: Encoding, w: Window)
    requires w != []
    ensures PackedAll(e, w) == Packed(e, w[0]) + PackedAll(e, w[1..])
  {
    hide Packed, Width;
  }

  /** An encoded value is read back from its bytes, two or four of them, in the order the encoding names,
      as the value or, if that is negative, as its two's complement. */
  lemma PackedReads(e: Encoding, v: int)
    requires if e.Le32? then -0x8000_0000 <= v < 0x8000_0000 else Fits16(v)
    ensures PackedAll(e, [v]) == Packed(e, v) && |Packed(e, v)| == if e.Le32? then 4 else 2
    ensures Value(if e.Be16? then Big else Little, Packed(e, v)) ==
            if v >= 0 then v else v + if e.Le32? then 0x1_0000_0000 else 0x1_0000
  {
    hide Value, Put;
    assert [v][1..] == [];
    Capacities();
    ValueOfPut(Order(e), Width(e), v % Capacity(Width(e)));
  }
}

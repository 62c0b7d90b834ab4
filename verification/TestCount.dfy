/** `published-test-count.py`: the passed total of a `cargo test` run, read off its output. */
module TestCount {
  import opened Results
  import opened Text

  // ---------------------------------------------------------------- decimal numbers

  predicate IsDigit(c: char) {
    '0' <= c <= '9'
  }

  /** `s.isdigit()` for ASCII text. */
  predicate IsDigits(s: string) {
    s != [] && forall i :: 0 <= i < |s| ==> IsDigit(s[i])
  }

  function DigitValue(c: char): nat
    requires IsDigit(c)
  {
    c as int - '0' as int
  }

  function ReadNat(s: string): nat
    requires forall i :: 0 <= i < |s| ==> IsDigit(s[i])
  {
    if s == [] then 0 else ReadNat(s[..|s| - 1]) * 10 + DigitValue(s[|s| - 1])
  }

  function ShowNat(n: nat): (s: string)
    ensures IsDigits(s)
  {
    var last := [('0' as int + n % 10) as char];
    if n < 10 then last else ShowNat(n / 10) + last
  }

  /** A printed number reads back as itself. */
  lemma {:induction false} ReadOfShow(n: nat)
    ensures ReadNat(ShowNat(n)) == n
  {
    var s := ShowNat(n);
    if n < 10 {
      assert s[..0] == [];
    } else {
      ReadOfShow(n / 10);
      assert s[..|s| - 1] == ShowNat(n / 10);
    }
  }

  // ---------------------------------------------------------------- one line

  const ESC: char := '\U{1B}'

  predicate IsSgr(c: char) {
    IsDigit(c) || c == ';'
  }

  function SgrLength(s: string): (n: nat)
    ensures n <= |s|
  {
    if s != [] && IsSgr(s[0]) then 1 + SgrLength(s[1..]) else 0
  }

  /** The length of the color code at the start of `s`, 0 if there is none. */
  function AnsiLength(s: string): (n: nat)
    ensures n <= |s|
  {
    if |s| >= 2 && s[0] == ESC && s[1] == '[' then
      var n := 2 + SgrLength(s[2..]);
      if n < |s| && s[n] == 'm' then n + 1 else 0
    else 0
  }

  /** The text without its color codes. */
  function StripAnsi(s: string): string
    decreases |s|
  {
    if s == [] then []
    else if AnsiLength(s) > 0 then StripAnsi(s[AnsiLength(s)..])
    else [s[0]] + StripAnsi(s[1..])
  }

  predicate IsSeparator(c: char) {
    c == ' ' || c == ';'
  }

  function FieldLength(s: string): (n: nat)
    ensures n <= |s| && (forall i :: 0 <= i < n ==> !IsSeparator(s[i])) && (n < |s| ==> IsSeparator(s[n]))
  {
    if s == [] || IsSeparator(s[0]) then 0 else 1 + FieldLength(s[1..])
  }

  function SeparatorLength(s: string): (n: nat)
    ensures n <= |s| && (forall i :: 0 <= i < n ==> IsSeparator(s[i])) && (n < |s| ==> !IsSeparator(s[n]))
  {
    if s == [] || !IsSeparator(s[0]) then 0 else 1 + SeparatorLength(s[1..])
  }

  /** The fields between runs of spaces and semicolons. */
  function Fields(s: string): (fields: seq<string>)
    ensures fields != []
    decreases |s|
  {
    var n := FieldLength(s);
    if n == |s| then [s] else [s[..n]] + Fields(s[n + SeparatorLength(s[n..])..])
  }

  /** What a line of the output says: nothing, a passed count, or that the run cannot be counted. */
  datatype Reading = Skip | Passed(n: nat) | Bad

  const RESULT_PREFIX := "test result"

  function ReadFields(fields: seq<string>): Reading {
    if |fields| < 4 || !IsDigits(fields[3]) then Bad
    else if fields[2] != "ok." then Bad
    else Passed(ReadNat(fields[3]))
  }

  function ReadLine(raw: string): Reading {
    var line := StripAnsi(raw);
    if !StartsWith(line, RESULT_PREFIX) then Skip else ReadFields(Fields(line))
  }

  // ---------------------------------------------------------------- the whole output

  /** The sum of the passed counts, and how many lines gave one. */
  datatype Tally = Tally(total: nat, lines: nat)

  function Add(a: Result<Tally>, b: Result<Tally>): Result<Tally> {
    if a.Ok? && b.Ok? then Ok(Tally(a.value.total + b.value.total, a.value.lines + b.value.lines)) else Refused
  }

  function TallyOf(reading: Reading): Result<Tally> {
    match reading
    case Skip => Ok(Tally(0, 0))
    case Passed(n) => Ok(Tally(n, 1))
    case Bad => Refused
  }

  function TallyLines(lines: seq<string>): (r: Result<Tally>) {
    if lines == [] then Ok(Tally(0, 0))
    else Add(TallyLines(lines[..|lines| - 1]), TallyOf(ReadLine(lines[|lines| - 1])))
  }

  function TallyText(text: string): (r: Result<Tally>) {
    TallyLines(SplitLines(text))
  }

  /** `count`: the passed total; no result line, a zero total and a failed binary are refused. */
  function Count(text: string): (r: Result<nat>) {
    var tally :- TallyText(text);
    if tally.lines == 0 || tally.total == 0 then Refused else Ok(tally.total)
  }

  /** A line that cannot be counted spoils the output. */
  lemma {:induction false} BadLineSpoils(lines: seq<string>, n: nat)
    requires n <= |lines| && TallyLines(lines[..n]).Refused?
    ensures TallyLines(lines).Refused?
  {
    if n == |lines| {
      assert lines[..n] == lines;
    } else {
      assert lines[..|lines| - 1][..n] == lines[..n];
      BadLineSpoils(lines[..|lines| - 1], n);
    }
  }

  /** The loop of `count`. */
  method CountLoop(text: string) returns (r: Result<nat>)
    ensures r == Count(text)
  {
    hide StripAnsi, Fields, TallyLines, ReadNat;
    var texts := SplitLines(text);
    var total: nat, lines: nat := 0, 0;
    NoLines();
    assert texts[..0] == [];
    for i := 0 to |texts|
      invariant TallyLines(texts[..i]) == Ok(Tally(total, lines))
    {
      LineStep(texts, i);
      var line := StripAnsi(texts[i]);
      if !StartsWith(line, RESULT_PREFIX) {
        continue;
      }
      var fields := Fields(line);
      if |fields| < 4 || !IsDigits(fields[3]) || fields[2] != "ok." {
        BadLineSpoils(texts, i + 1);
        return Refused;
      }
      total := total + ReadNat(fields[3]);
      lines := lines + 1;
    }
    assert texts[..|texts|] == texts;
    if lines == 0 || total == 0 {
      return Refused;
    }
    return Ok(total);
  }

  lemma NoLines()
    ensures TallyLines([]) == Ok(Tally(0, 0))
  {
  }

  lemma LineStep(lines: seq<string>, i: nat)
    requires i < |lines|
    ensures TallyLines(lines[..i + 1]) == Add(TallyLines(lines[..i]), TallyOf(ReadLine(lines[i])))
  {
    hide ReadLine;
    assert lines[..i + 1][..i] == lines[..i];
  }
}

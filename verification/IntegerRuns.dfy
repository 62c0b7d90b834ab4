/** `no-itu-values.py`, `integer_runs`: runs of integer literals in a file, as a loop over its bytes and
    as what a run means. */
module IntegerRuns {
  import opened Bytes

  /** How many values a run must have to matter. */
  const RUN := 6

  // ---------------------------------------------------------------- bytes

  predicate IsDigit(c: byte) {
    48 <= c <= 57
  }

  /** A letter, a digit, `_` or `.`. */
  predicate TouchesWord(c: byte) {
    IsDigit(c) || 65 <= c <= 90 || 97 <= c <= 122 || c == 95 || c == 46
  }

  /** White space, commas, semicolons, parentheses, brackets and braces. */
  predicate IsSeparator(c: byte) {
    || 9 <= c <= 13 || c == 32 || c == 44 || c == 59
    || c == 40 || c == 41 || c == 91 || c == 93 || c == 123 || c == 125
  }

  const MINUS: byte := 45
  const NEWLINE: byte := 10

  function DigitsEnd(b: bytes, i: nat): (j: nat)
    requires i <= |b|
    ensures i <= j <= |b| && (forall k :: i <= k < j ==> IsDigit(b[k])) && (j < |b| ==> !IsDigit(b[j]))
    decreases |b| - i
  {
    if i < |b| && IsDigit(b[i]) then DigitsEnd(b, i + 1) else i
  }

  function WordEnd(b: bytes, i: nat): (j: nat)
    requires i <= |b|
    ensures i <= j <= |b| && (forall k :: i <= k < j ==> TouchesWord(b[k])) && (j < |b| ==> !TouchesWord(b[j]))
    decreases |b| - i
  {
    if i < |b| && TouchesWord(b[i]) then WordEnd(b, i + 1) else i
  }

  function SeparatorsEnd(b: bytes, i: nat): (j: nat)
    requires i <= |b|
    ensures i <= j <= |b| && (forall k :: i <= k < j ==> IsSeparator(b[k])) && (j < |b| ==> !IsSeparator(b[j]))
    decreases |b| - i
  {
    if i < |b| && IsSeparator(b[i]) then SeparatorsEnd(b, i + 1) else i
  }

  // ---------------------------------------------------------------- numbers

  /** A digit, or a minus sign with a digit after it. */
  predicate NumberStarts(b: bytes, i: nat)
    requires i < |b|
  {
    IsDigit(b[i]) || (b[i] == MINUS && i + 1 < |b| && IsDigit(b[i + 1]))
  }

  function FirstDigit(b: bytes, i: nat): nat
    requires i < |b|
  {
    if b[i] == MINUS then i + 1 else i
  }

  function NumberEnd(b: bytes, i: nat): (j: nat)
    requires i < |b| && NumberStarts(b, i)
    ensures i < j <= |b|
  {
    DigitsEnd(b, FirstDigit(b, i))
  }

  function Decimal(digits: bytes): int {
    if digits == [] then 0 else Decimal(digits[..|digits| - 1]) * 10 + (digits[|digits| - 1] as int - 48)
  }

  function NumberValue(b: bytes, i: nat): int
    requires i < |b| && NumberStarts(b, i)
  {
    var magnitude := Decimal(b[FirstDigit(b, i)..NumberEnd(b, i)]);
    if b[i] == MINUS then -magnitude else magnitude
  }

  /** The number touches a letter, a digit, `_` or `.` on either side. */
  predicate Touches(b: bytes, i: nat)
    requires i < |b| && NumberStarts(b, i)
  {
    (i > 0 && TouchesWord(b[i - 1])) || (NumberEnd(b, i) < |b| && TouchesWord(b[NumberEnd(b, i)]))
  }

  predicate InRange(v: int) {
    -0x8000_0000 <= v < 0x8000_0000
  }

  // ---------------------------------------------------------------- the loop

  datatype Literal = Literal(value: int, line: nat)

  function Closed(run: seq<Literal>): seq<seq<Literal>> {
    if |run| >= RUN then [run] else []
  }

  function NextLine(line: nat, c: byte): nat {
    if c == NEWLINE then line + 1 else line
  }

  /** The runs of `b[i..]`, with `run` already open. */
  function Runs(b: bytes, i: nat, run: seq<Literal>, line: nat): seq<seq<Literal>>
    requires i <= |b|
    decreases |b| - i
  {
    if i == |b| then Closed(run)
    else if NumberStarts(b, i) then
      var end := NumberEnd(b, i);
      if Touches(b, i) then Closed(run) + Runs(b, WordEnd(b, end), [], line)
      else if InRange(NumberValue(b, i)) then Runs(b, end, run + [Literal(NumberValue(b, i), line)], line)
      else Closed(run) + Runs(b, end, [], line)
    else if IsSeparator(b[i]) then Runs(b, i + 1, run, NextLine(line, b[i]))
    else Closed(run) + Runs(b, i + 1, [], NextLine(line, b[i]))
  }

  method FindRuns(b: bytes) returns (runs: seq<seq<Literal>>)
    ensures runs == Runs(b, 0, [], 1)
  {
    hide Runs, NumberValue;
    var run: seq<Literal>, line := [], 1;
    var i := 0;
    runs := [];
    while i < |b|
      invariant 0 <= i <= |b|
      invariant runs + Runs(b, i, run, line) == Runs(b, 0, [], 1)
    {
      var c := b[i];
      RunsStep(b, i, run, line);
      ghost var before := runs;
      if IsDigit(c) || (c == MINUS && i + 1 < |b| && IsDigit(b[i + 1])) {
        var start := i;
        if c == MINUS {
          i := i + 1;
        }
        i := SkipDigits(b, i);
        if (start > 0 && TouchesWord(b[start - 1])) || (i < |b| && TouchesWord(b[i])) {
          i := SkipWord(b, i);
          runs := runs + Closed(run);
          run := [];
          Regroup(before, runs, Runs(b, i, run, line));
          continue;
        }
        var value := NumberValue(b, start);
        if InRange(value) {
          run := run + [Literal(value, line)];
        } else {
          runs := runs + Closed(run);
          run := [];
          Regroup(before, runs, Runs(b, i, run, line));
        }
        continue;
      }
      if c == NEWLINE {
        line := line + 1;
      }
      if !IsSeparator(c) {
        runs := runs + Closed(run);
        run := [];
        Regroup(before, runs, Runs(b, i + 1, run, line));
      }
      i := i + 1;
    }
    RunsEnd(b, run, line);
    runs := runs + Closed(run);
  }

  lemma Regroup(before: seq<seq<Literal>>, runs: seq<seq<Literal>>, rest: seq<seq<Literal>>)
    requires before <= runs
    ensures runs + rest == before + (runs[|before|..] + rest)
  {
  }

  method SkipDigits(b: bytes, start: nat) returns (i: nat)
    requires start <= |b|
    ensures i == DigitsEnd(b, start)
  {
    i := start;
    while i < |b| && IsDigit(b[i])
      invariant i <= |b| && DigitsEnd(b, i) == DigitsEnd(b, start)
    {
      i := i + 1;
    }
  }

  method SkipWord(b: bytes, start: nat) returns (i: nat)
    requires start <= |b|
    ensures i == WordEnd(b, start)
  {
    i := start;
    while i < |b| && TouchesWord(b[i])
      invariant i <= |b| && WordEnd(b, i) == WordEnd(b, start)
    {
      i := i + 1;
    }
  }

  lemma RunsStep(b: bytes, i: nat, run: seq<Literal>, line: nat)
    requires i < |b|
    ensures Runs(b, i, run, line) ==
            if NumberStarts(b, i) then
              if Touches(b, i) then Closed(run) + Runs(b, WordEnd(b, NumberEnd(b, i)), [], line)
              else if InRange(NumberValue(b, i)) then
                Runs(b, NumberEnd(b, i), run + [Literal(NumberValue(b, i), line)], line)
              else Closed(run) + Runs(b, NumberEnd(b, i), [], line)
            else if IsSeparator(b[i]) then Runs(b, i + 1, run, NextLine(line, b[i]))
            else Closed(run) + Runs(b, i + 1, [], NextLine(line, b[i]))
  {
    hide NumberValue, Closed, NumberStarts, Touches, NumberEnd, WordEnd;
  }

  lemma RunsEnd(b: bytes, run: seq<Literal>, line: nat)
    ensures Runs(b, |b|, run, line) == Closed(run)
  {
  }

  // ---------------------------------------------------------------- what a run is

  /** An integer literal starts at `s`: a whole number, sign included, that fits 32 bits and touches no
      letter, digit, `_` or `.` on either side. */
  predicate IsLiteral(b: bytes, s: nat)
    requires s < |b|
  {
    && NumberStarts(b, s)
    && (IsDigit(b[s]) && s > 0 ==> b[s - 1] != MINUS)
    && !Touches(b, s)
    && InRange(NumberValue(b, s))
  }

  /** The literals `values` stand in the file from `s` on, with nothing but separators between. */
  predicate Chain(b: bytes, s: nat, values: seq<int>)
    decreases |values|
  {
    values == [] ||
    (s < |b| && IsLiteral(b, s) && NumberValue(b, s) == values[0] &&
     Chain(b, SeparatorsEnd(b, NumberEnd(b, s)), values[1..]))
  }

  /** The line that offset `i` is on. */
  function LineOf(b: bytes, i: nat): nat
    requires i <= |b|
  {
    if i == 0 then 1 else NextLine(LineOf(b, i - 1), b[i - 1])
  }

  function Values(run: seq<Literal>): (values: seq<int>)
    ensures |values| == |run| && forall k :: 0 <= k < |run| ==> values[k] == run[k].value
  {
    seq(|run|, k requires 0 <= k < |run| => run[k].value)
  }

  /** Some run has `window` in it at `k`, where the run is on line `line`. */
  ghost predicate HasWindow(runs: seq<seq<Literal>>, window: seq<int>, line: nat) {
    exists r, k :: 0 <= r < |runs| && WindowAt(runs[r], k, window, line)
  }

  ghost predicate WindowAt(run: seq<Literal>, k: int, window: seq<int>, line: nat) {
    0 <= k < |run| && k + |window| <= |run| && Values(run[k..k + |window|]) == window && run[k].line == line
  }

  // ---------------------------------------------------------------- the bytes that matter

  const SEPARATORS := " \t\r\n\U{000B}\U{000C},;()[]{}"

  /** The separators are white space, commas, semicolons and brackets. */
  lemma SeparatorIff(c: byte)
    ensures IsSeparator(c) <==> c as char in SEPARATORS
  {
    var s := SEPARATORS;
    assert s[0] == ' ' && s[1] == '\t' && s[2] == '\r' && s[3] == '\n';
    assert s[4] as int == 11 && s[5] as int == 12 && s[6] == ',' && s[7] == ';';
    assert s[8] == '(' && s[9] == ')' && s[10] == '[' && s[11] == ']' && s[12] == '{' && s[13] == '}';
  }

  /** What touches a word is a letter, a digit, an underscore or a dot. */
  lemma WordIff(c: byte)
    ensures TouchesWord(c) <==>
            var x := c as char;
            'a' <= x <= 'z' || 'A' <= x <= 'Z' || '0' <= x <= '9' || x in "_."
  {
  }

  function TenTo(n: nat): nat {
    if n == 0 then 1 else 10 * TenTo(n - 1)
  }

  lemma TenTimes(x: int, y: int)
    ensures 10 * (x * y) == x * (10 * y)
  {
  }

  /** The digits of a number count by their place in base ten. */
  lemma {:induction false} DecimalOfConcat(a: bytes, b: bytes)
    ensures Decimal(a + b) == Decimal(a) * TenTo(|b|) + Decimal(b)
  {
    if b == [] {
      assert a + b == a;
    } else {
      var n := |b| - 1;
      DecimalOfConcat(a, b[..n]);
      assert (a + b)[..|a| + n] == a + b[..n];
      TenTimes(Decimal(a), TenTo(n));
    }
  }

  lemma DecimalOfDigit(c: byte)
    requires IsDigit(c)
    ensures 0 <= Decimal([c]) < 10 && Decimal([c]) + 48 == c as int
  {
    assert [c][..0] == [];
  }
}

/** The parts of Python's `str` the scripts lean on: white space, `strip`, `splitlines`, `join`. */
module Text {

  /** `str.isspace` for one character. */
  predicate IsSpace(c: char) {
    var n := c as int;
    || 0x09 <= n <= 0x0D || 0x1C <= n <= 0x20 || n == 0x85 || n == 0xA0 || n == 0x1680
    || 0x2000 <= n <= 0x200A || n == 0x2028 || n == 0x2029 || n == 0x202F || n == 0x205F || n == 0x3000
  }

  /** The characters `str.splitlines` ends a line at. */
  predicate IsBreak(c: char) {
    var n := c as int;
    0x0A <= n <= 0x0D || 0x1C <= n <= 0x1E || n == 0x85 || n == 0x2028 || n == 0x2029
  }

  predicate StartsWith(s: string, prefix: string) {
    |prefix| <= |s| && s[..|prefix|] == prefix
  }

  // ---------------------------------------------------------------- strip

  function LStrip(s: string): (r: string)
    ensures |r| <= |s|
  {
    if s != [] && IsSpace(s[0]) then LStrip(s[1..]) else s
  }

  function RStrip(s: string): (r: string)
    ensures |r| <= |s| && r == s[..|r|]
    ensures r != [] ==> !IsSpace(r[|r| - 1])
    ensures forall i :: |r| <= i < |s| ==> IsSpace(s[i])
  {
    if s != [] && IsSpace(s[|s| - 1]) then RStrip(s[..|s| - 1]) else s
  }

  function Strip(s: string): string {
    RStrip(LStrip(s))
  }

  /** How many times `c` stands at the start of `s`: what `s.lstrip(c)` takes off. */
  function LeadingRun(s: string, c: char): (n: nat)
    ensures n <= |s| && (forall i :: 0 <= i < n ==> s[i] == c) && (n < |s| ==> s[n] != c)
  {
    if s != [] && s[0] == c then 1 + LeadingRun(s[1..], c) else 0
  }

  predicate AllSpace(s: string) {
    forall i :: 0 <= i < |s| ==> IsSpace(s[i])
  }

  lemma {:induction false} StripEmptyIff(s: string)
    ensures Strip(s) == [] <==> AllSpace(s)
  {
    if s != [] && IsSpace(s[0]) {
      StripEmptyIff(s[1..]);
    }
  }

  lemma StripPadded(pre: string, core: string, post: string)
    requires AllSpace(pre) && AllSpace(post) && core != [] && !IsSpace(core[0]) && !IsSpace(core[|core| - 1])
    ensures Strip(pre + core + post) == core
  {
    hide IsSpace;
    LStripPadding(pre, core + post);
    assert pre + core + post == pre + (core + post);
    RStripPadding(core, post);
  }

  lemma {:induction false} LStripPadding(pre: string, s: string)
    requires AllSpace(pre) && s != [] && !IsSpace(s[0])
    ensures LStrip(pre + s) == s
  {
    hide IsSpace;
    if pre == [] {
      assert pre + s == s;
    } else {
      LStripPadding(pre[1..], s);
      assert (pre + s)[1..] == pre[1..] + s;
    }
  }

  lemma {:induction false} RStripPadding(s: string, post: string)
    requires AllSpace(post) && s != [] && !IsSpace(s[|s| - 1])
    ensures RStrip(s + post) == s
  {
    hide IsSpace;
    var n := |post|;
    if n == 0 {
      assert s + post == s;
    } else {
      RStripPadding(s, post[..n - 1]);
      assert (s + post)[..|s| + n - 1] == s + post[..n - 1];
    }
  }

  lemma StripNoop(s: string)
    requires s != [] && !IsSpace(s[0]) && !IsSpace(s[|s| - 1])
    ensures Strip(s) == s
  {
  }

  lemma {:induction false} LStripSplits(s: string)
    ensures var n := |s| - |LStrip(s)|;
            s[n..] == LStrip(s) && AllSpace(s[..n]) && (LStrip(s) != [] ==> !IsSpace(LStrip(s)[0]))
  {
    hide IsSpace;
    if s != [] && IsSpace(s[0]) {
      LStripSplits(s[1..]);
      var n := |s| - |LStrip(s)|;
      assert s[n..] == s[1..][n - 1..];
      assert forall i :: 0 < i < n ==> s[i] == s[1..][..n - 1][i - 1];
    }
  }

  /** White space at both ends, and nothing of it left on the text between. */
  predicate IsPadded(s: string, pre: string, r: string, post: string) {
    && s == pre + r + post && AllSpace(pre) && AllSpace(post)
    && (r != [] ==> !IsSpace(r[0]) && !IsSpace(r[|r| - 1]))
  }

  lemma StripIff(s: string, r: string)
    ensures Strip(s) == r <==> exists pre, post :: IsPadded(s, pre, r, post)
  {
    hide IsSpace, RStrip, LStrip;
    var t := LStrip(s);
    LStripSplits(s);
    var pre, post := s[..|s| - |t|], t[|Strip(s)|..];
    assert s == pre + t && t == Strip(s) + post;
    assert pre + (Strip(s) + post) == pre + Strip(s) + post;
    assert IsPadded(s, pre, Strip(s), post);
    forall p, q | IsPadded(s, p, r, q)
      ensures Strip(s) == r
    {
      if r == [] {
        assert s == p + q;
        StripEmptyIff(s);
      } else {
        StripPadded(p, r, q);
      }
    }
  }

  // ---------------------------------------------------------------- lines

  /** A line and the break that ends it, empty for a last line without one. */
  datatype Line = Line(text: string, end: string)

  /** How many characters stand before the first line break. */
  function LineLength(s: string): (n: nat)
    ensures n <= |s| && (forall i :: 0 <= i < n ==> !IsBreak(s[i])) && (n < |s| ==> IsBreak(s[n]))
  {
    if s == [] || IsBreak(s[0]) then 0 else 1 + LineLength(s[1..])
  }

  /** The length of the line break at the start of `s`: a carriage return and a line feed are one. */
  function BreakLength(s: string): (n: nat)
    ensures n <= |s| && n <= 2 && (n > 0 <==> s != [] && IsBreak(s[0]))
    ensures forall i :: 0 <= i < n ==> IsBreak(s[i])
  {
    if s == [] || !IsBreak(s[0]) then 0
    else if |s| >= 2 && s[0] == '\r' && s[1] == '\n' then 2
    else 1
  }

  /** The first line of a text. */
  function HeadLine(s: string): (line: Line)
    requires s != []
    ensures 0 < |line.text| + |line.end| <= |s|
    ensures line.text + line.end == s[..|line.text| + |line.end|]
  {
    var n := LineLength(s);
    var b := BreakLength(s[n..]);
    assert s[..n] + s[n..n + b] == s[..n + b];
    Line(s[..n], s[n..n + b])
  }

  /** The lines of a text with their ends. */
  function Lines(s: string): (lines: seq<Line>)
    decreases |s|
  {
    if s == [] then []
    else
      var line := HeadLine(s);
      [line] + Lines(s[|line.text| + |line.end|..])
  }

  /** `s.splitlines()`. */
  function SplitLines(s: string): (texts: seq<string>) {
    Texts(Lines(s))
  }

  function Texts(lines: seq<Line>): (texts: seq<string>)
    ensures |texts| == |lines| && forall i :: 0 <= i < |lines| ==> texts[i] == lines[i].text
  {
    seq(|lines|, i requires 0 <= i < |lines| => lines[i].text)
  }

  predicate NoBreaks(s: string) {
    forall i :: 0 <= i < |s| ==> !IsBreak(s[i])
  }

  lemma FirstBreak(s: string, n: nat)
    requires n <= |s| && (forall i :: 0 <= i < n ==> !IsBreak(s[i])) && (n < |s| ==> IsBreak(s[n]))
    ensures LineLength(s) == n
  {
    hide LineLength, IsBreak;
  }

  lemma HeadLineConcat(a: string, b: string)
    requires a != [] && a[|a| - 1] == '\n'
    ensures HeadLine(a + b) == HeadLine(a)
  {
    hide LineLength;
    var n := LineLength(a);
    assert forall i :: 0 <= i < |a| ==> (a + b)[i] == a[i];
    assert n < |a|;
    FirstBreak(a + b, n);
    var k := BreakLength(a[n..]);
    assert (a + b)[n..] == a[n..] + b;
    assert BreakLength((a + b)[n..]) == k by {
      assert a[n..][|a| - n - 1] == '\n';
    }
    assert (a + b)[..n] == a[..n] && (a + b)[n..n + k] == a[n..n + k];
  }

  /** A text that ends in a line feed can be split there. */
  lemma {:induction false} LinesConcat(a: string, b: string)
    requires a == [] || a[|a| - 1] == '\n'
    ensures Lines(a + b) == Lines(a) + Lines(b)
    decreases |a|
  {
    hide HeadLine;
    if a == [] {
      assert a + b == b;
    } else {
      HeadLineConcat(a, b);
      var k := |HeadLine(a).text| + |HeadLine(a).end|;
      assert (a + b)[k..] == a[k..] + b;
      LinesConcat(a[k..], b);
    }
  }

  /** Line texts of a text that ends in a line feed. */
  lemma SplitLinesConcat(a: string, b: string)
    requires a == [] || a[|a| - 1] == '\n'
    ensures SplitLines(a + b) == SplitLines(a) + SplitLines(b)
  {
    hide Lines;
    LinesConcat(a, b);
  }

  lemma SingleLine(s: string)
    requires NoBreaks(s)
    ensures SplitLines(s + "\n") == [s]
  {
    var t := s + "\n";
    assert t[..|s|] == s && t[|s|..] == "\n";
    FirstBreak(t, |s|);
    assert HeadLine(t) == Line(s, "\n");
    hide HeadLine;
    assert t[|s| + 1..] == [];
    assert Lines([]) == [];
    assert Lines(t) == [Line(s, "\n")];
  }

  predicate IsLineEnd(e: string) {
    e == "\r\n" || (|e| == 1 && IsBreak(e[0]))
  }

  /** These are lines one after another: no breaks inside them, each but the last ended by one, and no
      carriage return and line feed torn apart. */
  predicate AreLines(lines: seq<Line>) {
    forall i :: 0 <= i < |lines| ==>
      && NoBreaks(lines[i].text)
      && (if lines[i].end == "" then i == |lines| - 1 && lines[i].text != "" else IsLineEnd(lines[i].end))
      && (lines[i].end == "\r" && i + 1 < |lines| ==> !(lines[i + 1].text == "" && lines[i + 1].end == "\n"))
  }

  function Unsplit(lines: seq<Line>): string {
    if lines == [] then "" else lines[0].text + lines[0].end + Unsplit(lines[1..])
  }

  lemma HeadIsLine(line: Line, rest: string)
    requires NoBreaks(line.text) && (if line.end == "" then rest == "" && line.text != "" else IsLineEnd(line.end))
    requires line.end == "\r" ==> !(rest != "" && rest[0] == '\n')
    ensures line.text + line.end + rest != []
    ensures HeadLine(line.text + line.end + rest) == line
  {
    hide LineLength, IsBreak;
    var s, n := line.text + line.end + rest, |line.text|;
    assert s[n..] == line.end + rest;
    assert line.end != "" ==> s[n] == line.end[0];
    BreaksAre();
    FirstBreak(s, n);
    assert s[..n] == line.text && s[n..n + |line.end|] == line.end;
    assert line.end == "\r\n" ==> s[n..][1] == '\n';
    assert |line.end| == 1 && rest != "" ==> s[n..][1] == rest[0];
  }

  lemma BreaksAre()
    ensures IsBreak('\r') && IsBreak('\n')
  {
  }

  lemma {:induction false} LinesOfUnsplit(lines: seq<Line>)
    requires AreLines(lines)
    ensures Lines(Unsplit(lines)) == lines
  {
    hide HeadLine, IsBreak;
    if lines != [] {
      var rest := lines[1..];
      assert forall i :: 0 <= i < |rest| ==> rest[i] == lines[i + 1];
      LinesOfUnsplit(rest);
      var line := lines[0];
      StartOfUnsplit(rest);
      HeadIsLine(line, Unsplit(rest));
      var s := line.text + line.end + Unsplit(rest);
      assert s[|line.text| + |line.end|..] == Unsplit(rest);
      assert lines == [line] + rest;
    }
  }

  /** Only an empty line that a line feed ends starts with a line feed. */
  lemma StartOfUnsplit(lines: seq<Line>)
    requires AreLines(lines)
    ensures Unsplit(lines) != "" && Unsplit(lines)[0] == '\n' ==>
            lines != [] && lines[0].text == "" && lines[0].end == "\n"
    ensures Unsplit(lines) == "" ==> lines == []
  {
    hide IsBreak;
    BreaksAre();
    if lines != [] {
      var line := lines[0];
      assert Unsplit(lines) == line.text + line.end + Unsplit(lines[1..]);
      assert line.text != "" ==> Unsplit(lines)[0] == line.text[0];
      assert line.text == "" && line.end != "" ==> Unsplit(lines)[0] == line.end[0];
    }
  }

  lemma HeadLineIs(s: string)
    requires s != []
    ensures var line := HeadLine(s);
            var rest := s[|line.text| + |line.end|..];
            && NoBreaks(line.text) && (if line.end == "" then rest == "" && line.text != "" else IsLineEnd(line.end))
            && (line.end == "\r" ==> !(rest != "" && rest[0] == '\n'))
  {
    hide LineLength, IsBreak;
    var n := LineLength(s);
    var tail := s[n..];
    assert tail != "" ==> tail[0] == s[n];
    assert |tail| >= 2 ==> tail[1] == s[n + 1];
    var b := BreakLength(tail);
    assert s[n..n + b] == tail[..b];
    assert n + b < |s| ==> s[n + b..][0] == s[n + b];
  }

  lemma LinesCons(line: Line, rest: seq<Line>)
    requires AreLines(rest) && NoBreaks(line.text)
    requires if line.end == "" then rest == [] && line.text != "" else IsLineEnd(line.end)
    requires line.end == "\r" && rest != [] ==> !(rest[0].text == "" && rest[0].end == "\n")
    ensures AreLines([line] + rest) && Unsplit([line] + rest) == line.text + line.end + Unsplit(rest)
  {
    hide IsBreak, NoBreaks, IsLineEnd;
    var lines := [line] + rest;
    assert lines[1..] == rest;
    assert forall i :: 0 < i < |lines| ==> lines[i] == rest[i - 1];
  }

  lemma {:induction false} LinesAreLines(s: string)
    ensures AreLines(Lines(s)) && Unsplit(Lines(s)) == s
    decreases |s|
  {
    hide HeadLine, IsBreak, NoBreaks, IsLineEnd, AreLines, Unsplit;
    if s == [] {
      NoLinesAtAll();
    } else {
      var line := HeadLine(s);
      var k := |line.text| + |line.end|;
      LinesAreLines(s[k..]);
      HeadLineIs(s);
      FirstOfRest(Lines(s[k..]));
      assert s[k..] == "" ==> Lines(s[k..]) == [];
      LinesCons(line, Lines(s[k..]));
      assert s == s[..k] + s[k..];
    }
  }

  lemma NoLinesAtAll()
    ensures AreLines([]) && Unsplit([]) == ""
  {
  }

  lemma FirstOfRest(lines: seq<Line>)
    ensures lines != [] && lines[0].text == "" && lines[0].end == "\n" ==>
            Unsplit(lines) != "" && Unsplit(lines)[0] == '\n'
    ensures lines == [] ==> Unsplit(lines) == ""
  {
  }

  /** The lines of a text are exactly the lines it is made of. */
  lemma LinesIff(s: string, lines: seq<Line>)
    ensures Lines(s) == lines <==> AreLines(lines) && Unsplit(lines) == s
  {
    hide AreLines, Unsplit;
    LinesAreLines(s);
    if AreLines(lines) {
      LinesOfUnsplit(lines);
    }
  }

  // ---------------------------------------------------------------- join

  /** `"\n".join(parts) + "\n"`. */
  function JoinLines(parts: seq<string>): string {
    if parts == [] then "\n" else if |parts| == 1 then parts[0] + "\n" else parts[0] + "\n" + JoinLines(parts[1..])
  }

  /** `sep.join(parts)`. */
  function Join(sep: string, parts: seq<string>): string {
    if parts == [] then [] else if |parts| == 1 then parts[0] else parts[0] + sep + Join(sep, parts[1..])
  }

  function Concat(parts: seq<string>): string {
    if parts == [] then [] else parts[0] + Concat(parts[1..])
  }

  lemma {:induction false} ConcatLast(texts: seq<string>, text: string)
    ensures Concat(texts + [text]) == Concat(texts) + text
  {
    if texts == [] {
      assert texts + [text] == [text] && [text][1..] == [];
    } else {
      assert (texts + [text])[1..] == texts[1..] + [text];
      ConcatLast(texts[1..], text);
    }
  }
}

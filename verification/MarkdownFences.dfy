/** The lines that open and close a fenced block, by section 4.5 of the CommonMark specification, stated
    on how the lines are written. */
module MarkdownFences {
  import opened Options
  import opened Text
  import opened Markdown

  function Repeated(c: char, n: nat): (s: string)
    ensures |s| == n && forall k :: 0 <= k < n ==> s[k] == c
  {
    seq(n, _ => c)
  }

  /** At most three spaces, the mark `n` times, and the rest of the line. */
  predicate Fenced(line: string, indent: nat, mark: char, n: nat, rest: string) {
    indent <= 3 && line == Repeated(' ', indent) + Repeated(mark, n) + rest
  }

  lemma RunIs(s: string, c: char, n: nat)
    requires n <= |s| && (forall k :: 0 <= k < n ==> s[k] == c) && (n < |s| ==> s[n] != c)
    ensures LeadingRun(s, c) == n
  {
    var m := LeadingRun(s, c);
    assert !(m < n) && !(n < m);
  }

  /** The indent and the run of marks, read off the way the line is written. */
  lemma FencedReads(line: string, indent: nat, mark: char, n: nat, rest: string)
    requires Fenced(line, indent, mark, n, rest) && mark != ' ' && n >= 1 && (rest == "" || rest[0] != mark)
    ensures LeadingRun(line, ' ') == indent
    ensures line[indent..] == Repeated(mark, n) + rest && LeadingRun(line[indent..], mark) == n
    ensures line[indent..][n..] == rest
  {
    hide LeadingRun;
    var marks := Repeated(mark, n);
    assert line[indent..] == marks + rest;
    assert forall k :: 0 <= k < indent ==> line[k] == ' ';
    assert line[indent] == marks[0];
    RunIs(line, ' ', indent);
    RunIs(line[indent..], mark, n);
  }

  lemma ReadsFenced(line: string, mark: char)
    requires LeadingRun(line, ' ') <= 3
    ensures var indent := LeadingRun(line, ' ');
            var n := LeadingRun(line[indent..], mark);
            Fenced(line, indent, mark, n, line[indent..][n..])
  {
    hide LeadingRun;
    var indent := LeadingRun(line, ' ');
    var stripped := line[indent..];
    var n := LeadingRun(stripped, mark);
    ThreeParts(line, indent, n);
    assert line[..indent] == Repeated(' ', indent);
    assert stripped[..n] == Repeated(mark, n);
  }

  lemma ThreeParts(s: string, i: nat, n: nat)
    requires i <= |s| && n <= |s[i..]|
    ensures s == s[..i] + s[i..][..n] + s[i..][n..]
  {
  }

  lemma MarksAreNoSpace()
    ensures !IsSpace('`') && !IsSpace('~')
  {
  }

  /** A line closes a fence exactly when it is at most three spaces, at least as many marks as opened it,
      and white space. */
  lemma FenceCloseIff(line: string, m: Marker)
    requires m.mark in "`~" && m.run >= 1
    ensures FenceClose(line, m) <==>
            exists indent: nat, n: nat, rest ::
              Fenced(line, indent, m.mark, n, rest) && n >= m.run && AllSpace(rest)
  {
    hide Strip, LeadingRun, IsSpace, Fenced;
    MarksAreNoSpace();
    if FenceClose(line, m) {
      ReadsFenced(line, m.mark);
      var stripped := line[LeadingRun(line, ' ')..];
      StripEmptyIff(stripped[LeadingRun(stripped, m.mark)..]);
    }
    forall indent: nat, n: nat, rest | Fenced(line, indent, m.mark, n, rest) && n >= m.run && AllSpace(rest)
      ensures FenceClose(line, m)
    {
      NotTheMark(rest, m.mark);
      FencedReads(line, indent, m.mark, n, rest);
      FencedIndent(line, indent, m.mark, n, rest);
      StripEmptyIff(rest);
    }
  }

  lemma NotTheMark(rest: string, mark: char)
    requires AllSpace(rest) && !IsSpace(mark)
    ensures rest == "" || rest[0] != mark
  {
  }

  lemma FencedIndent(line: string, indent: nat, mark: char, n: nat, rest: string)
    requires Fenced(line, indent, mark, n, rest)
    ensures indent <= 3
  {
  }

  lemma TickInStrip(s: string)
    ensures '`' in Strip(s) <==> '`' in s
  {
    hide Strip, IsSpace;
    MarksAreNoSpace();
    StripIff(s, Strip(s));
    var pre, post :| IsPadded(s, pre, Strip(s), post);
    assert '`' !in pre && '`' !in post;
    assert '`' in s <==> '`' in pre || '`' in Strip(s) || '`' in post;
  }

  /** A line opens a fence exactly when it is at most three spaces, a run of three or more backticks or
      tildes, and an info string, which holds no backtick behind backticks. */
  lemma FenceOpenIff(line: string, m: Marker)
    ensures FenceOpen(line) == Some(m) <==>
            && m.mark in "`~" && m.run >= 3
            && exists indent: nat, rest ::
                 && Fenced(line, indent, m.mark, m.run, rest) && (rest == "" || rest[0] != m.mark)
                 && (m.mark == '`' ==> '`' !in rest)
  {
    hide Strip, LeadingRun, IsSpace, Fenced;
    var indent := LeadingRun(line, ' ');
    var stripped := line[indent..];
    if FenceOpen(line) == Some(m) {
      ReadsFenced(line, m.mark);
      TickInStrip(stripped[m.run..]);
      RunStops(stripped, m.mark);
    }
    if m.mark in "`~" && m.run >= 3 {
      forall i: nat, rest | Fenced(line, i, m.mark, m.run, rest) && (rest == "" || rest[0] != m.mark) &&
                            (m.mark == '`' ==> '`' !in rest)
        ensures FenceOpen(line) == Some(m)
      {
        FencedReads(line, i, m.mark, m.run, rest);
        FencedIndent(line, i, m.mark, m.run, rest);
        TickInStrip(rest);
        assert stripped[0] == Repeated(m.mark, m.run)[0];
      }
    }
  }

  lemma RunStops(s: string, c: char)
    ensures var rest := s[LeadingRun(s, c)..]; rest == "" || rest[0] != c
  {
  }

  /** The info string is what stands behind the marks, without white space around it. */
  lemma InfoIs(line: string, indent: nat, m: Marker, rest: string)
    requires m.mark in "`~" && m.run >= 3
    requires Fenced(line, indent, m.mark, m.run, rest) && (rest == "" || rest[0] != m.mark)
    ensures exists pre, post :: IsPadded(rest, pre, Info(line, m), post)
  {
    hide Strip, LeadingRun, IsSpace, IsPadded;
    FencedReads(line, indent, m.mark, m.run, rest);
    StripIff(rest, Info(line, m));
  }
}

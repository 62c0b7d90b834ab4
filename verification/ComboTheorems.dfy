/** A file of feature combinations is read back as what was written, and the order of its lines does not
    show in how the combinations are split. */
module ComboTheorems {
  import opened Text
  import opened FeatureMatrix
  import opened FeatureMatrixTheorems
  import opened ComboFile

  // ---------------------------------------------------------------- writing

  /** Text that stays one word of one line. */
  predicate IsWord(s: string) {
    s != [] && forall k :: 0 <= k < |s| ==> !IsSpace(s[k]) && !IsBreak(s[k]) && s[k] != '#'
  }

  predicate Unquoted(s: string) {
    s != [] && s[0] != '"' && s[0] != '\'' && s[|s| - 1] != '"' && s[|s| - 1] != '\''
  }

  predicate Printable(c: Combo) {
    && IsWord(c.features) && Unquoted(c.features)
    && (forall k :: 0 <= k < |c.tests| ==> IsWord(c.tests[k]))
    && (forall k :: 0 <= k < |c.needs| ==> IsWord(c.needs[k]))
  }

  function Prefixed(prefix: string, names: seq<string>): (words: seq<string>)
    ensures |words| == |names| && forall k :: 0 <= k < |names| ==> words[k] == prefix + names[k]
  {
    seq(|names|, k requires 0 <= k < |names| => prefix + names[k])
  }

  function Annotations(c: Combo): seq<string> {
    (if c.suite then ["suite"] else []) + (if c.lib then ["lib"] else []) + Prefixed(TEST, c.tests) +
      Prefixed(NEEDS, c.needs)
  }

  /** Words with a space before each. */
  function Spaced(words: seq<string>): string {
    if words == [] then [] else [' '] + words[0] + Spaced(words[1..])
  }

  function Line(c: Combo): string {
    c.features + Spaced(Annotations(c))
  }

  function File(cs: seq<Combo>): string {
    if cs == [] then [] else Line(cs[0]) + "\n" + File(cs[1..])
  }

  // ---------------------------------------------------------------- words

  lemma CharFacts()
    ensures IsSpace(' ') && !IsBreak(' ') && IsBreak('\n')
  {
  }

  lemma {:induction false} WordEnds(w: string, rest: string)
    requires (forall k :: 0 <= k < |w| ==> !IsSpace(w[k])) && (rest == [] || IsSpace(rest[0]))
    ensures WordLength(w + rest) == |w|
  {
    hide IsSpace;
    if w != [] {
      assert (w + rest)[1..] == w[1..] + rest;
      WordEnds(w[1..], rest);
    } else {
      assert w + rest == rest;
    }
  }

  lemma WordThen(w: string, rest: string)
    requires IsWord(w) && (rest == [] || IsSpace(rest[0]))
    ensures Words(w + rest) == [w] + Words(rest)
  {
    hide IsSpace, IsBreak;
    WordEnds(w, rest);
    assert (w + rest)[..|w|] == w && (w + rest)[|w|..] == rest;
  }

  lemma {:induction false} WordsOfSpaced(words: seq<string>)
    requires forall k :: 0 <= k < |words| ==> IsWord(words[k])
    ensures Words(Spaced(words)) == words && (words != [] ==> Spaced(words)[0] == ' ')
  {
    hide IsSpace, IsBreak, IsWord, Words;
    CharFacts();
    if words == [] {
      NoWords();
    } else {
      var rest := Spaced(words[1..]);
      WordsOfSpaced(words[1..]);
      WordThen(words[0], rest);
      SpaceThen(words[0] + rest);
      assert Spaced(words) == [' '] + (words[0] + rest);
    }
  }

  lemma NoWords()
    ensures Words("") == []
  {
  }

  lemma SpaceThen(s: string)
    ensures Words([' '] + s) == Words(s)
  {
    hide IsSpace;
    CharFacts();
    assert ([' '] + s)[1..] == s;
  }

  predicate OneLine(s: string) {
    forall k :: 0 <= k < |s| ==> !IsBreak(s[k]) && s[k] != '#'
  }

  lemma {:induction false} SpacedIsOneLine(words: seq<string>)
    requires forall k :: 0 <= k < |words| ==> IsWord(words[k])
    ensures OneLine(Spaced(words))
  {
    hide IsSpace, IsBreak;
    CharFacts();
    if words != [] {
      SpacedIsOneLine(words[1..]);
    }
  }

  lemma {:induction false} SpacedEnds(words: seq<string>)
    requires words != [] && forall k :: 0 <= k < |words| ==> IsWord(words[k])
    ensures Spaced(words) != [] && !IsSpace(Spaced(words)[|Spaced(words)| - 1])
  {
    hide IsSpace, IsBreak;
    if |words| > 1 {
      SpacedEnds(words[1..]);
    } else {
      assert words[1..] == [];
    }
  }

  lemma {:induction false} NoComment(s: string)
    requires OneLine(s)
    ensures Uncommented(s) == s
  {
    hide IsBreak;
    if s != [] {
      NoComment(s[1..]);
    }
  }

  lemma AnnotationsAreWords(c: Combo)
    requires Printable(c)
    ensures forall k :: 0 <= k < |Annotations(c)| ==> IsWord(Annotations(c)[k])
  {
    hide IsWord, Unquoted;
    FixedWords();
    forall k | 0 <= k < |c.tests|
      ensures IsWord(Prefixed(TEST, c.tests)[k])
    {
      PrefixedIsWord(TEST, c.tests[k]);
    }
    forall k | 0 <= k < |c.needs|
      ensures IsWord(Prefixed(NEEDS, c.needs)[k])
    {
      PrefixedIsWord(NEEDS, c.needs[k]);
    }
  }

  lemma FixedWords()
    ensures IsWord("suite") && IsWord("lib") && IsWord(TEST) && IsWord(NEEDS)
  {
  }

  lemma PrefixedIsWord(prefix: string, name: string)
    requires IsWord(prefix) && IsWord(name)
    ensures IsWord(prefix + name)
  {
    hide IsSpace, IsBreak;
  }

  /** The words of a written line are the features and the annotations. */
  lemma WordsOfLine(c: Combo)
    requires Printable(c)
    ensures OneLine(Line(c)) && Words(Strip(Uncommented(Line(c)))) == [c.features] + Annotations(c)
  {
    hide IsSpace, IsBreak, Words, Spaced, Annotations, Strip;
    CharFacts();
    var notes := Annotations(c);
    AnnotationsAreWords(c);
    WordsOfSpaced(notes);
    SpacedIsOneLine(notes);
    var line := Line(c);
    NoComment(line);
    if notes != [] {
      SpacedEnds(notes);
      assert line[|line| - 1] == Spaced(notes)[|Spaced(notes)| - 1];
    } else {
      SpacedNothing();
    }
    assert line[0] == c.features[0];
    StripNoop(line);
    WordThen(c.features, Spaced(notes));
  }

  lemma SpacedNothing()
    ensures Spaced([]) == []
  {
  }

  // ---------------------------------------------------------------- reading a line back

  lemma {:induction false} ReadInTurn(c: Combo, n: nat, a: seq<string>, b: seq<string>)
    requires AnnotatedAll(c, n, a).Done?
    ensures AnnotatedAll(c, n, a + b) == AnnotatedAll(AnnotatedAll(c, n, a).value, n, b)
    decreases |a|
  {
    hide Annotated;
    if a == [] {
      assert a + b == b;
    } else {
      assert (a + b)[1..] == a[1..] + b;
      ReadInTurn(Annotated(c, n, a[0]).value, n, a[1..], b);
    }
  }

  lemma TestWord(c: Combo, n: nat, name: string)
    requires name != []
    ensures Annotated(c, n, TEST + name) == Done(c.(tests := c.tests + [name]))
  {
    var w := TEST + name;
    assert w[0] == 't' && w[..5] == TEST && w[5..] == name;
  }

  lemma NeedsWord(c: Combo, n: nat, name: string)
    requires name != []
    ensures Annotated(c, n, NEEDS + name) == Done(c.(needs := c.needs + [name]))
  {
    var w := NEEDS + name;
    assert w[0] == 'n' && w[..6] == NEEDS && w[6..] == name;
    assert w[..5][0] == 'n';
  }

  lemma {:induction false} TestsRead(c: Combo, n: nat, names: seq<string>)
    requires forall k :: 0 <= k < |names| ==> names[k] != []
    ensures AnnotatedAll(c, n, Prefixed(TEST, names)) == Done(c.(tests := c.tests + names))
    decreases |names|
  {
    hide Annotated;
    var words := Prefixed(TEST, names);
    if names == [] {
      assert c.tests + names == c.tests;
    } else {
      TestWord(c, n, names[0]);
      assert words[1..] == Prefixed(TEST, names[1..]);
      TestsRead(c.(tests := c.tests + [names[0]]), n, names[1..]);
      assert (c.tests + [names[0]]) + names[1..] == c.tests + names;
    }
  }

  lemma {:induction false} NeedsRead(c: Combo, n: nat, names: seq<string>)
    requires forall k :: 0 <= k < |names| ==> names[k] != []
    ensures AnnotatedAll(c, n, Prefixed(NEEDS, names)) == Done(c.(needs := c.needs + names))
    decreases |names|
  {
    hide Annotated;
    var words := Prefixed(NEEDS, names);
    if names == [] {
      assert c.needs + names == c.needs;
    } else {
      NeedsWord(c, n, names[0]);
      assert words[1..] == Prefixed(NEEDS, names[1..]);
      NeedsRead(c.(needs := c.needs + [names[0]]), n, names[1..]);
      assert (c.needs + [names[0]]) + names[1..] == c.needs + names;
    }
  }

  lemma FlagsRead(c: Combo, n: nat, suite: bool, lib: bool)
    requires !c.lib && !c.suite
    ensures AnnotatedAll(c, n, (if suite then ["suite"] else []) + (if lib then ["lib"] else [])) ==
            Done(c.(suite := suite, lib := lib))
  {
    var a := if suite then ["suite"] else [];
    var b := if lib then ["lib"] else [];
    assert suite ==> ["suite"][1..] == [];
    assert lib ==> ["lib"][1..] == [];
    assert "lib"[0] != "suite"[0];
    assert AnnotatedAll(c, n, a) == Done(c.(suite := suite));
    ReadInTurn(c, n, a, b);
  }

  lemma NameRead(word: string)
    requires Unquoted(word)
    ensures Named(word) == Combo(word, [], false, [], false)
  {
  }

  lemma AnnotationsRead(c: Combo, n: nat)
    requires Printable(c)
    ensures AnnotatedAll(Named(c.features), n, Annotations(c)) == Done(c)
  {
    hide Annotated, AnnotatedAll, Named, IsSpace, IsBreak;
    NameRead(c.features);
    var start := Named(c.features);
    var flags := (if c.suite then ["suite"] else []) + (if c.lib then ["lib"] else []);
    var tests, needs := Prefixed(TEST, c.tests), Prefixed(NEEDS, c.needs);
    FlagsRead(start, n, c.suite, c.lib);
    var flagged := start.(suite := c.suite, lib := c.lib);
    TestsRead(flagged, n, c.tests);
    assert [] + c.tests == c.tests;
    var tested := flagged.(tests := c.tests);
    NeedsRead(tested, n, c.needs);
    assert [] + c.needs == c.needs;
    ReadInTurn(start, n, flags, tests);
    ReadInTurn(start, n, flags + tests, needs);
    assert Annotations(c) == (flags + tests) + needs;
  }

  lemma LineRead(out: seq<Combo>, n: nat, c: Combo)
    requires Printable(c) && !IsListed(out, c.features)
    ensures ReadLine(out, n, Line(c)) == Done(out + [c])
  {
    hide Words, Strip, Uncommented, AnnotatedAll, Named, Annotations, Printable, Line, IsListed;
    WordsOfLine(c);
    AnnotationsRead(c, n);
    assert ([c.features] + Annotations(c))[1..] == Annotations(c);
  }

  // ---------------------------------------------------------------- the file

  lemma {:induction false} LinesOfFile(cs: seq<Combo>)
    requires forall k :: 0 <= k < |cs| ==> Printable(cs[k])
    ensures |SplitLines(File(cs))| == |cs| && forall k :: 0 <= k < |cs| ==> SplitLines(File(cs))[k] == Line(cs[k])
  {
    hide Printable, Line, IsBreak, SplitLines;
    if cs == [] {
      NoLines();
    } else {
      var first, rest := Line(cs[0]), File(cs[1..]);
      LinesOfFile(cs[1..]);
      WordsOfLine(cs[0]);
      CharFacts();
      SplitLinesConcat(first + "\n", rest);
      SingleLine(first);
      assert SplitLines(File(cs)) == [first] + SplitLines(rest);
    }
  }

  lemma NoLines()
    ensures SplitLines("") == []
  {
  }

  lemma {:induction false} FileRead(out: seq<Combo>, n: nat, cs: seq<Combo>, lines: seq<string>)
    requires |lines| == |cs| && forall k :: 0 <= k < |cs| ==> Printable(cs[k]) && lines[k] == Line(cs[k])
    requires AllDiffer(out + cs)
    ensures ReadLines(out, n, lines) == Done(out + cs)
    decreases |cs|
  {
    hide ReadLine, Printable, Line;
    if cs == [] {
      assert out + cs == out;
    } else {
      NotYetListed(out, cs);
      LineRead(out, n, cs[0]);
      assert (out + [cs[0]]) + cs[1..] == out + cs;
      FileRead(out + [cs[0]], n + 1, cs[1..], lines[1..]);
    }
  }

  lemma NotYetListed(out: seq<Combo>, cs: seq<Combo>)
    requires AllDiffer(out + cs) && cs != []
    ensures !IsListed(out, cs[0].features)
  {
    var all := out + cs;
    assert all[|out|] == cs[0];
    forall c | c in out
      ensures c.features != cs[0].features
    {
      var k :| 0 <= k < |out| && out[k] == c;
      assert all[k] == c;
    }
  }

  /** A file written from distinct combinations is read back as those combinations. */
  lemma FileRoundTrip(cs: seq<Combo>)
    requires cs != [] && AllDiffer(cs) && forall k :: 0 <= k < |cs| ==> Printable(cs[k])
    ensures Combos(File(cs)) == Done(cs)
  {
    hide ReadLines, Printable, File, SplitLines, Line;
    LinesOfFile(cs);
    assert [] + cs == cs;
    FileRead([], 1, cs, SplitLines(File(cs)));
  }

  lemma DifferHasNoTwins(cs: seq<Combo>)
    requires AllDiffer(cs)
    ensures NoTwins(cs)
  {
    forall a, b | a in cs && b in cs && a != b
      ensures !Twins(a, b)
    {
      var i :| 0 <= i < |cs| && cs[i] == a;
      var j :| 0 <= j < |cs| && cs[j] == b;
      assert i < j || j < i;
    }
  }

  /** Two accepted files that list the same combinations, in whatever order, are split the same way. */
  lemma SplitIgnoresLineOrder(a: string, b: string, groupsPools: seq<string>, pools: Pools)
    requires Combos(a).Done? && Combos(b).Done? && multiset(Combos(a).value) == multiset(Combos(b).value)
    ensures Partition(Combos(a).value, groupsPools, pools) == Partition(Combos(b).value, groupsPools, pools)
  {
    hide Combos, Partition;
    CombosDiffer(a);
    DifferHasNoTwins(Combos(a).value);
    PartitionForgetsOrder(Combos(a).value, Combos(b).value, groupsPools, pools);
  }
}

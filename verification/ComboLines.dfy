/** The file of feature combinations, line by line: which lines list a combination, which one, and which
    line is refused and why. */
module ComboLines {
  import opened Text
  import opened FeatureMatrix
  import opened ComboFile
  import opened ComboTheorems

  // ---------------------------------------------------------------- comments

  /** What is left of a line is the text before its first `#`. */
  lemma {:induction false} UncommentedIff(s: string, r: string)
    ensures Uncommented(s) == r <==> '#' !in r && (s == r || exists rest :: s == r + "#" + rest)
  {
    if s == [] {
    } else if s[0] == '#' {
      assert s == "" + "#" + s[1..];
    } else {
      UncommentedIff(s[1..], Uncommented(s[1..]));
      var kept := Uncommented(s);
      assert kept[1..] == Uncommented(s[1..]);
      if s[1..] != kept[1..] {
        var rest :| s[1..] == kept[1..] + "#" + rest;
        assert s == kept + "#" + rest;
      } else {
        assert s == [s[0]] + s[1..];
      }
      if '#' !in r && (s == r || exists rest :: s == r + "#" + rest) {
        FirstStays(s, r);
        UncommentedIff(s[1..], r[1..]);
        assert r == [s[0]] + r[1..];
      }
    }
  }

  lemma FirstStays(s: string, r: string)
    requires s != [] && s[0] != '#' && (s == r || exists rest :: s == r + "#" + rest)
    ensures r != [] && r[0] == s[0] && (s[1..] == r[1..] || exists rest :: s[1..] == r[1..] + "#" + rest)
  {
    if s != r {
      var rest :| s == r + "#" + rest;
      assert s[|r|] == '#';
      assert s[1..] == r[1..] + "#" + rest;
    }
  }

  // ---------------------------------------------------------------- words

  /** The words with what stands around them. */
  function Woven(words: seq<string>, gaps: seq<string>): string
    requires |gaps| == |words| + 1
  {
    if words == [] then gaps[0] else gaps[0] + words[0] + Woven(words[1..], gaps[1..])
  }

  predicate IsBlack(w: string) {
    w != [] && forall k :: 0 <= k < |w| ==> !IsSpace(w[k])
  }

  /** Words without white space, and white space around them that is nowhere empty between two. */
  predicate AreWords(words: seq<string>, gaps: seq<string>) {
    && |gaps| == |words| + 1
    && (forall k :: 0 <= k < |words| ==> IsBlack(words[k]))
    && forall k :: 0 <= k < |gaps| ==> AllSpace(gaps[k]) && (0 < k < |words| ==> gaps[k] != [])
  }

  lemma {:induction false} SkipSpace(gap: string, rest: string)
    requires AllSpace(gap)
    ensures Words(gap + rest) == Words(rest)
  {
    hide IsSpace;
    if gap == [] {
      assert gap + rest == rest;
    } else {
      SkipSpace(gap[1..], rest);
      assert (gap + rest)[1..] == gap[1..] + rest;
    }
  }

  lemma TakeWord(w: string, rest: string)
    requires IsBlack(w) && (rest == [] || IsSpace(rest[0]))
    ensures Words(w + rest) == [w] + Words(rest)
  {
    hide IsSpace;
    WordEnds(w, rest);
    assert (w + rest)[..|w|] == w && (w + rest)[|w|..] == rest;
  }

  lemma {:induction false} WordsOfWoven(words: seq<string>, gaps: seq<string>)
    requires AreWords(words, gaps)
    ensures Words(Woven(words, gaps)) == words
    decreases |words|
  {
    hide IsSpace, Words, IsBlack, AllSpace;
    if words == [] {
      SkipSpace(gaps[0], []);
      NoWords();
      assert gaps[0] + [] == gaps[0];
    } else {
      var rest := Woven(words[1..], gaps[1..]);
      WordsOfWoven(words[1..], gaps[1..]);
      assert gaps[0] + words[0] + rest == gaps[0] + (words[0] + rest);
      SkipSpace(gaps[0], words[0] + rest);
      assert gaps[1..][0] == gaps[1];
      RestStarts(words[1..], gaps[1..]);
      TakeWord(words[0], rest);
    }
  }

  lemma RestStarts(words: seq<string>, gaps: seq<string>)
    requires |gaps| == |words| + 1 && AllSpace(gaps[0]) && (words != [] ==> gaps[0] != [])
    ensures Woven(words, gaps) == [] || IsSpace(Woven(words, gaps)[0])
  {
    hide IsSpace;
  }

  lemma {:induction false} FindGaps(s: string) returns (gaps: seq<string>)
    ensures AreWords(Words(s), gaps) && Woven(Words(s), gaps) == s
    ensures s != [] && IsSpace(s[0]) ==> gaps[0] != []
    decreases |s|
  {
    hide IsSpace, WordLength, AreWords, Woven;
    if s == [] {
      gaps := [""];
      NoGaps();
    } else if IsSpace(s[0]) {
      var more := FindGaps(s[1..]);
      WidenGap(s[0], Words(s[1..]), more);
      gaps := [[s[0]] + more[0]] + more[1..];
      assert s == [s[0]] + s[1..];
    } else {
      var n := WordLength(s);
      assert n > 0;
      var more := FindGaps(s[n..]);
      assert n < |s| ==> s[n..][0] == s[n];
      AddWord(s[..n], Words(s[n..]), more, s[n..]);
      gaps := [""] + more;
      assert s == s[..n] + s[n..];
    }
  }

  lemma NoGaps()
    ensures AreWords([], [""]) && Woven([], [""]) == ""
  {
  }

  lemma WidenGap(c: char, words: seq<string>, gaps: seq<string>)
    requires IsSpace(c) && AreWords(words, gaps)
    ensures |gaps| > 0 && AreWords(words, [[c] + gaps[0]] + gaps[1..])
    ensures Woven(words, [[c] + gaps[0]] + gaps[1..]) == [c] + Woven(words, gaps)
  {
    hide IsSpace, IsBlack, AllSpace;
    var first, more := [c] + gaps[0], [[c] + gaps[0]] + gaps[1..];
    WiderSpace(c, gaps[0]);
    assert more[0] == first && more[1..] == gaps[1..] && forall k :: 0 < k < |gaps| ==> more[k] == gaps[k];
    if words != [] {
      var rest := Woven(words[1..], gaps[1..]);
      assert first + words[0] + rest == [c] + (gaps[0] + words[0] + rest);
    }
  }

  lemma WiderSpace(c: char, gap: string)
    requires IsSpace(c) && AllSpace(gap)
    ensures AllSpace([c] + gap)
  {
    hide IsSpace;
  }

  lemma AddWord(w: string, words: seq<string>, gaps: seq<string>, rest: string)
    requires IsBlack(w) && AreWords(words, gaps) && Woven(words, gaps) == rest
    requires rest == [] || gaps[0] != []
    ensures AreWords([w] + words, [""] + gaps) && Woven([w] + words, [""] + gaps) == w + rest
  {
    hide IsSpace;
    var more, all := [""] + gaps, [w] + words;
    assert more[1..] == gaps && all[1..] == words;
    assert rest == [] ==> words == [];
    assert "" + w == w;
  }

  /** A line comes apart at exactly its runs of white space. */
  lemma WordsIff(s: string, words: seq<string>)
    ensures Words(s) == words <==> exists gaps :: AreWords(words, gaps) && Woven(words, gaps) == s
  {
    hide Words, Woven, IsBlack, AllSpace;
    var gaps := FindGaps(s);
    forall other | AreWords(words, other) && Woven(words, other) == s
      ensures Words(s) == words
    {
      WordsOfWoven(words, other);
    }
  }

  // ---------------------------------------------------------------- names

  predicate AllOf(s: string, c: char) {
    forall k :: 0 <= k < |s| ==> s[k] == c
  }

  predicate IsQuoted(s: string, c: char, pre: string, r: string, post: string) {
    s == pre + r + post && AllOf(pre, c) && AllOf(post, c) && (r != [] ==> r[0] != c && r[|r| - 1] != c)
  }

  lemma {:induction false} DropFirstOf(s: string, c: char, pre: string, r: string)
    requires s == pre + r && AllOf(pre, c) && (r != [] ==> r[0] != c)
    ensures DropFirst(s, c) == r
  {
    if pre == [] {
      assert s == r;
    } else {
      assert s[1..] == pre[1..] + r;
      DropFirstOf(s[1..], c, pre[1..], r);
    }
  }

  lemma {:induction false} DropLastOf(s: string, c: char, r: string, post: string)
    requires s == r + post && AllOf(post, c) && (r != [] ==> r[|r| - 1] != c)
    ensures DropLast(s, c) == r
  {
    if post == [] {
      assert s == r;
    } else {
      assert s[..|s| - 1] == r + post[..|post| - 1];
      DropLastOf(s[..|s| - 1], c, r, post[..|post| - 1]);
    }
  }

  lemma {:induction false} FirstDropped(s: string, c: char) returns (pre: string)
    ensures s == pre + DropFirst(s, c) && AllOf(pre, c)
    ensures DropFirst(s, c) != [] ==> DropFirst(s, c)[0] != c
  {
    if s != [] && s[0] == c {
      pre := FirstDropped(s[1..], c);
      pre := [c] + pre;
      assert s == [c] + s[1..];
    } else {
      pre := "";
    }
  }

  lemma {:induction false} LastDropped(s: string, c: char) returns (post: string)
    ensures s == DropLast(s, c) + post && AllOf(post, c)
    ensures DropLast(s, c) != [] ==> DropLast(s, c)[|DropLast(s, c)| - 1] != c
  {
    if s != [] && s[|s| - 1] == c {
      post := LastDropped(s[..|s| - 1], c);
      post := post + [c];
      assert s == s[..|s| - 1] + [c];
    } else {
      post := "";
    }
  }

  /** A quote is taken off both ends of a word as often as it stands there, and nowhere else. */
  lemma StripOfIff(s: string, c: char, r: string)
    ensures StripOf(s, c) == r <==> exists pre, post :: IsQuoted(s, c, pre, r, post)
  {
    hide DropFirst, DropLast;
    var t := DropFirst(s, c);
    var pre := FirstDropped(s, c);
    var post := LastDropped(t, c);
    assert s == pre + DropLast(t, c) + post;
    assert IsQuoted(s, c, pre, StripOf(s, c), post);
    forall p, q | IsQuoted(s, c, p, r, q)
      ensures StripOf(s, c) == r
    {
      if r == [] {
        assert AllOf(s, c);
        assert s + "" == s && "" + s == s;
        DropFirstOf(s, c, s, "");
        DropLastOf("", c, "", "");
      } else {
        assert s == p + (r + q);
        DropFirstOf(s, c, p, r + q);
        DropLastOf(r + q, c, r, q);
      }
    }
  }

  // ---------------------------------------------------------------- annotations

  /** The word names a test, or a tool, after its prefix. */
  predicate Names(word: string, prefix: string, name: string) {
    name != "" && word == prefix + name
  }

  ghost predicate Known(word: string) {
    word == "suite" || word == "lib" || (exists name :: Names(word, "test=", name)) ||
    exists name :: Names(word, "needs=", name)
  }

  lemma NamesIff(word: string, prefix: string)
    ensures (exists name :: Names(word, prefix, name)) <==> StartsWith(word, prefix) && |word| > |prefix|
    ensures forall name :: Names(word, prefix, name) ==> |word| > |prefix| && name == word[|prefix|..]
  {
    if StartsWith(word, prefix) && |word| > |prefix| {
      assert Names(word, prefix, word[|prefix|..]);
    }
    forall name | Names(word, prefix, name)
      ensures StartsWith(word, prefix) && |word| > |prefix| && name == word[|prefix|..]
    {
      assert word[..|prefix|] == prefix;
    }
  }

  /** The names that words with this prefix give, in order. */
  function NamedBy(words: seq<string>, prefix: string): seq<string> {
    if words == [] then []
    else (if prefix < words[0] then [words[0][|prefix|..]] else []) + NamedBy(words[1..], prefix)
  }

  predicate IsLib(word: string) {
    word == "lib"
  }

  /** Two places with `lib`, or one when it is already set. */
  predicate LibRepeated(words: seq<string>, isSet: bool) {
    || (isSet && exists j :: 0 <= j < |words| && IsLib(words[j]))
    || exists i, j :: 0 <= i < j < |words| && IsLib(words[i]) && IsLib(words[j])
  }

  /** A combination with what the annotations say. */
  function With(c: Combo, words: seq<string>): Combo {
    c.(suite := c.suite || "suite" in words, lib := c.lib || "lib" in words,
       tests := c.tests + NamedBy(words, "test="), needs := c.needs + NamedBy(words, "needs="))
  }

  ghost predicate AllKnown(words: seq<string>) {
    forall k :: 0 <= k < |words| ==> Known(words[k])
  }

  /** One word. */
  lemma AnnotatedIs(c: Combo, line: nat, word: string)
    ensures Annotated(c, line, word) ==
            if !Known(word) then Failed(UnknownAnnotation(line, word))
            else if word == "lib" && c.lib then Failed(LibTwice(line))
            else Done(With(c, [word]))
  {
    hide StartsWith, Known;
    NamesIff(word, "test=");
    NamesIff(word, "needs=");
    KnownIff(word);
    WordKinds(word);
    NamedByOne(word, "test=");
    NamedByOne(word, "needs=");
    assert c.tests + [] == c.tests && c.needs + [] == c.needs;
  }

  lemma KnownIff(word: string)
    ensures Known(word) <==> || word == "suite" || word == "lib"
                             || (exists name :: Names(word, "test=", name))
                             || exists name :: Names(word, "needs=", name)
  {
  }

  /** A word is of one kind only. */
  lemma WordKinds(word: string)
    ensures word == "suite" || word == "lib" ==> !StartsWith(word, "test=") && !StartsWith(word, "needs=")
    ensures !(StartsWith(word, "test=") && StartsWith(word, "needs="))
    ensures "suite" != "lib"
  {
    assert "suite"[0] == 's' && "lib"[0] == 'l' && "test="[0] == 't' && "needs="[0] == 'n';
    assert |word| >= 5 ==> word[..5][0] == word[0];
    assert |word| >= 6 ==> word[..6][0] == word[0];
  }

  lemma NamedByOne(word: string, prefix: string)
    ensures NamedBy([word], prefix) ==
            if StartsWith(word, prefix) && |word| > |prefix| then [word[|prefix|..]] else []
  {
    assert [word][1..] == [];
    assert StartsWith(word, prefix) <==> prefix <= word;
  }

  lemma {:induction false} WithTwice(c: Combo, a: seq<string>, b: seq<string>)
    ensures With(With(c, a), b) == With(c, a + b)
  {
    hide NamedBy;
    NamedByTwice(a, b, "test=");
    NamedByTwice(a, b, "needs=");
    var x, y := NamedBy(a, "test="), NamedBy(b, "test=");
    var u, v := NamedBy(a, "needs="), NamedBy(b, "needs=");
    assert c.tests + x + y == c.tests + (x + y) && c.needs + u + v == c.needs + (u + v);
  }

  lemma {:induction false} NamedByTwice(a: seq<string>, b: seq<string>, prefix: string)
    ensures NamedBy(a + b, prefix) == NamedBy(a, prefix) + NamedBy(b, prefix)
  {
    if a == [] {
      assert a + b == b;
    } else {
      assert (a + b)[1..] == a[1..] + b;
      NamedByTwice(a[1..], b, prefix);
    }
  }

  lemma RepeatedCons(w: string, words: seq<string>, isSet: bool)
    ensures LibRepeated([w] + words, isSet) <==> (w == "lib" && isSet) || LibRepeated(words, isSet || w == "lib")
  {
    var all := [w] + words;
    assert all[0] == w;
    assert forall k :: 0 <= k < |words| ==> words[k] == all[k + 1];
    assert forall k :: 0 < k < |all| ==> all[k] == words[k - 1];
    if LibRepeated(words, isSet || w == "lib") {
      RepeatedLater(w, words, isSet);
    }
  }

  lemma RepeatedLater(w: string, words: seq<string>, isSet: bool)
    requires LibRepeated(words, isSet || w == "lib")
    ensures LibRepeated([w] + words, isSet)
  {
    var all := [w] + words;
    if isSet || w == "lib" {
      var j :| 0 <= j < |words| && IsLib(words[j]);
      assert IsLib(all[j + 1]) && all[0] == w;
    } else {
      var i, j :| 0 <= i < j < |words| && IsLib(words[i]) && IsLib(words[j]);
      assert IsLib(all[i + 1]) && IsLib(all[j + 1]);
    }
  }

  /** Annotations are taken exactly when each is known and `lib` is there once; the combination then has
      what they say. */
  lemma {:induction false} AnnotationsIff(c: Combo, line: nat, words: seq<string>, r: Combo)
    ensures AnnotatedAll(c, line, words) == Done(r) <==>
            AllKnown(words) && !LibRepeated(words, c.lib) && r == With(c, words)
    decreases |words|
  {
    hide Annotated, Known, LibRepeated, With;
    if words == [] {
      WithNothing(c);
    } else {
      var w, rest := words[0], words[1..];
      assert words == [w] + rest;
      AnnotatedIs(c, line, w);
      RepeatedCons(w, rest, c.lib);
      WithLib(c, w);
      WithTwice(c, [w], rest);
      assert AllKnown(words) <==> Known(w) && AllKnown(rest) by {
        assert forall k :: 0 <= k < |rest| ==> rest[k] == words[k + 1];
        assert forall k :: 0 < k < |words| ==> words[k] == rest[k - 1];
      }
      if Annotated(c, line, w).Done? {
        AnnotationsIff(With(c, [w]), line, rest, r);
      }
    }
  }

  lemma WithNothing(c: Combo)
    ensures With(c, []) == c && !LibRepeated([], c.lib)
  {
    assert c.tests + [] == c.tests && c.needs + [] == c.needs;
  }

  lemma WithLib(c: Combo, w: string)
    ensures With(c, [w]).lib == (c.lib || w == "lib")
  {
  }

  /** The first annotation that is refused, and how. */
  ghost predicate FirstRefused(words: seq<string>, isSet: bool, line: nat, k: nat, e: Error) {
    && k < |words| && AllKnown(words[..k]) && !LibRepeated(words[..k], isSet)
    && (if !Known(words[k]) then e == UnknownAnnotation(line, words[k])
        else LibRepeated(words[..k + 1], isSet) && e == LibTwice(line))
  }

  lemma RepeatedSnoc(words: seq<string>, w: string, isSet: bool)
    requires !LibRepeated(words, isSet)
    ensures LibRepeated(words + [w], isSet) <==> w == "lib" && (isSet || "lib" in words)
  {
    var all := words + [w];
    assert all[|words|] == w && forall k :: 0 <= k < |words| ==> all[k] == words[k];
    if "lib" in words {
      var i :| 0 <= i < |words| && words[i] == "lib";
      assert IsLib(all[i]);
    }
  }

  lemma RefusedAt(c: Combo, line: nat, words: seq<string>, k: nat)
    requires k < |words| && AllKnown(words[..k]) && !LibRepeated(words[..k], c.lib)
    ensures AnnotatedAll(c, line, words[..k]) == Done(With(c, words[..k]))
    ensures AnnotatedAll(c, line, words[..k + 1]) == Annotated(With(c, words[..k]), line, words[k])
    ensures forall e :: AnnotatedAll(c, line, words[..k + 1]) == Failed(e) <==>
            FirstRefused(words, c.lib, line, k, e)
    ensures AnnotatedAll(c, line, words[..k + 1]).Failed? ==>
            AnnotatedAll(c, line, words) == AnnotatedAll(c, line, words[..k + 1])
  {
    hide Annotated, AnnotatedAll, Known, LibRepeated, AllKnown;
    var a, w, b := words[..k], words[k], words[k + 1..];
    AnnotationsIff(c, line, a, With(c, a));
    AnnotatedIs(With(c, a), line, w);
    RepeatedSnoc(a, w, c.lib);
    assert words[..k + 1] == a + [w] && words == a + ([w] + b);
    ReadInTurn(c, line, a, [w]);
    ReadInTurn(c, line, a, [w] + b);
    OneWord(With(c, a), line, w, b);
  }

  lemma OneWord(c: Combo, line: nat, w: string, b: seq<string>)
    ensures AnnotatedAll(c, line, [w]) == Annotated(c, line, w)
    ensures Annotated(c, line, w).Failed? ==> AnnotatedAll(c, line, [w] + b) == Annotated(c, line, w)
  {
    hide Annotated;
    assert [w][1..] == [];
  }

  lemma {:induction false} FindRefused(c: Combo, line: nat, words: seq<string>, n: nat) returns (k: nat)
    requires n <= |words| && AllKnown(words[..n]) && !LibRepeated(words[..n], c.lib)
    requires AnnotatedAll(c, line, words).Failed?
    ensures FirstRefused(words, c.lib, line, k, AnnotatedAll(c, line, words).error)
    decreases |words| - n
  {
    hide AnnotatedAll, Known, LibRepeated, AllKnown, FirstRefused;
    assert words[..|words|] == words;
    AnnotationsIff(c, line, words[..n], With(c, words[..n]));
    RefusedAt(c, line, words, n);
    if AnnotatedAll(c, line, words[..n + 1]).Failed? {
      k := n;
    } else {
      AnnotationsIff(c, line, words[..n + 1], AnnotatedAll(c, line, words[..n + 1]).value);
      k := FindRefused(c, line, words, n + 1);
    }
  }

  /** Annotations are refused at the first one that is not known or is a second `lib`. */
  lemma RefusedIff(c: Combo, line: nat, words: seq<string>, e: Error)
    ensures AnnotatedAll(c, line, words) == Failed(e) <==> exists k: nat :: FirstRefused(words, c.lib, line, k, e)
  {
    hide AnnotatedAll, Known, LibRepeated;
    if AnnotatedAll(c, line, words) == Failed(e) {
      WithNothing(c);
      assert words[..0] == [];
      var k := FindRefused(c, line, words, 0);
    }
    forall k: nat | FirstRefused(words, c.lib, line, k, e)
      ensures AnnotatedAll(c, line, words) == Failed(e)
    {
      RefusedAt(c, line, words, k);
    }
  }

  // ---------------------------------------------------------------- the file

  function LineWords(raw: string): seq<string> {
    Words(Strip(Uncommented(raw)))
  }

  /** The words list this combination: the features without their quotes, and annotations. */
  ghost predicate ListedBy(words: seq<string>, c: Combo) {
    && words != [] && AllKnown(words[1..]) && !LibRepeated(words[1..], false)
    && c == With(Combo(StripOf(StripOf(words[0], '"'), '\''), [], false, [], false), words[1..])
  }

  /** The lines that are not blank list these combinations, in order. */
  ghost predicate Lists(lines: seq<string>, cs: seq<Combo>)
    decreases |lines|
  {
    if lines == [] then cs == []
    else if LineWords(lines[0]) == [] then Lists(lines[1..], cs)
    else cs != [] && ListedBy(LineWords(lines[0]), cs[0]) && Lists(lines[1..], cs[1..])
  }

  lemma LineIs(out: seq<Combo>, n: nat, raw: string)
    ensures LineWords(raw) == [] ==> ReadLine(out, n, raw) == Done(out)
    ensures LineWords(raw) != [] ==> forall c ::
              ListedBy(LineWords(raw), c) ==>
                ReadLine(out, n, raw) ==
                if IsListed(out, c.features) then Failed(ListedTwice(n, c.features)) else Done(out + [c])
    ensures LineWords(raw) != [] && ReadLine(out, n, raw).Done? ==> ListsOne(out, n, raw)
  {
    hide Words, Strip, Uncommented, AnnotatedAll, AllKnown, LibRepeated, With, IsListed, StripOf;
    var words := LineWords(raw);
    if words != [] {
      var start := Named(words[0]);
      forall c
        ensures AnnotatedAll(start, n, words[1..]) == Done(c) <==> ListedBy(words, c)
      {
        AnnotationsIff(start, n, words[1..], c);
      }
      if AnnotatedAll(start, n, words[1..]).Done? {
        assert ListedBy(words, AnnotatedAll(start, n, words[1..]).value);
      }
    }
  }

  ghost predicate ListsOne(out: seq<Combo>, n: nat, raw: string) {
    exists c :: ListedBy(LineWords(raw), c) && !IsListed(out, c.features) && ReadLine(out, n, raw) == Done(out + [c])
  }

  lemma {:induction false} ReadLinesKeep(out: seq<Combo>, n: nat, lines: seq<string>)
    requires ReadLines(out, n, lines).Done?
    ensures out <= ReadLines(out, n, lines).value
    decreases |lines|
  {
    hide ReadLine;
    if lines != [] {
      ReadLineKeeps(out, n, lines[0]);
      ReadLinesKeep(ReadLine(out, n, lines[0]).value, n + 1, lines[1..]);
    }
  }

  lemma ReadLineKeeps(out: seq<Combo>, n: nat, raw: string)
    requires ReadLine(out, n, raw).Done?
    ensures out <= ReadLine(out, n, raw).value
  {
    hide Words, Strip, Uncommented, AnnotatedAll, Named, IsListed;
  }

  lemma AddedDiffers(out: seq<Combo>, c: Combo)
    requires AllDiffer(out) && !IsListed(out, c.features)
    ensures AllDiffer(out + [c])
  {
  }

  lemma ListedNotAll(out: seq<Combo>, cs: seq<Combo>)
    requires cs != [] && IsListed(out, cs[0].features)
    ensures !AllDiffer(out + cs)
  {
    var c :| c in out && c.features == cs[0].features;
    var k :| 0 <= k < |out| && out[k] == c;
    var all := out + cs;
    assert all[k] == c && all[|out|] == cs[0];
  }

  lemma {:induction false} ReadLinesIff(out: seq<Combo>, n: nat, lines: seq<string>, cs: seq<Combo>)
    requires AllDiffer(out)
    ensures ReadLines(out, n, lines) == Done(out + cs) <==> Lists(lines, cs) && AllDiffer(out + cs)
    decreases |lines|
  {
    hide ReadLine, LineWords, ListedBy, IsListed, AllDiffer;
    if lines == [] {
      assert out + cs == out <==> cs == [] by {
        assert |out + cs| == |out| + |cs|;
      }
    } else {
      LineIs(out, n, lines[0]);
      var words := LineWords(lines[0]);
      if words == [] {
        ReadLinesIff(out, n + 1, lines[1..], cs);
      } else if ReadLine(out, n, lines[0]).Done? {
        var c :| ListedBy(words, c) && !IsListed(out, c.features) && ReadLine(out, n, lines[0]) == Done(out + [c]);
        AddedDiffers(out, c);
        if cs != [] && cs[0] == c {
          assert out + [c] + cs[1..] == out + cs;
          ReadLinesIff(out + [c], n + 1, lines[1..], cs[1..]);
        } else {
          OnlyOne(words, c);
          if ReadLines(out + [c], n + 1, lines[1..]).Done? {
            ReadLinesKeep(out + [c], n + 1, lines[1..]);
            NextIs(out, c, cs, ReadLines(out + [c], n + 1, lines[1..]).value);
          }
        }
      } else if cs != [] && ListedBy(words, cs[0]) {
        ListedNotAll(out, cs);
      }
    }
  }

  lemma NextIs(out: seq<Combo>, c: Combo, cs: seq<Combo>, all: seq<Combo>)
    requires out + [c] <= all
    ensures all == out + cs ==> cs != [] && cs[0] == c
  {
    assert all[|out|] == (out + [c])[|out|];
  }

  lemma OnlyOne(words: seq<string>, c: Combo)
    requires ListedBy(words, c)
    ensures forall d :: ListedBy(words, d) ==> d == c
  {
    hide AllKnown, LibRepeated, With, StripOf;
  }

  /** A file is accepted exactly when its lines list at least one combination, and none twice. */
  lemma CombosIff(text: string, cs: seq<Combo>)
    ensures Combos(text) == Done(cs) <==> cs != [] && Lists(SplitLines(text), cs) && AllDiffer(cs)
  {
    hide ReadLines, SplitLines, Lists, AllDiffer;
    NoneDiffer();
    assert [] + cs == cs;
    ReadLinesIff([], 1, SplitLines(text), cs);
  }

  lemma NoneDiffer()
    ensures AllDiffer([])
  {
  }

  /** The line is refused, after these combinations and with this error. */
  ghost predicate LineRefused(cs: seq<Combo>, n: nat, words: seq<string>, e: Error) {
    && words != []
    && ((exists k: nat :: FirstRefused(words[1..], false, n, k, e)) ||
        exists c :: ListedBy(words, c) && IsListed(cs, c.features) && e == ListedTwice(n, c.features))
  }

  lemma LineRefusedIff(out: seq<Combo>, n: nat, raw: string, e: Error)
    ensures ReadLine(out, n, raw) == Failed(e) <==> LineRefused(out, n, LineWords(raw), e)
  {
    hide Words, Strip, Uncommented, AnnotatedAll, AllKnown, LibRepeated, With, IsListed, StripOf, FirstRefused;
    var words := LineWords(raw);
    if words != [] {
      var start := Named(words[0]);
      RefusedIff(start, n, words[1..], e);
      forall c
        ensures AnnotatedAll(start, n, words[1..]) == Done(c) <==> ListedBy(words, c)
      {
        AnnotationsIff(start, n, words[1..], c);
      }
    }
  }

  /** The first line that is refused. */
  ghost predicate FileRefused(lines: seq<string>, k: nat, cs: seq<Combo>, e: Error) {
    && k < |lines| && Lists(lines[..k], cs) && AllDiffer(cs)
    && LineRefused(cs, k + 1, LineWords(lines[k]), e)
  }

  lemma {:induction false} ReadLinesInTurn(out: seq<Combo>, n: nat, a: seq<string>, b: seq<string>)
    requires ReadLines(out, n, a).Done?
    ensures ReadLines(out, n, a + b) == ReadLines(ReadLines(out, n, a).value, n + |a|, b)
    decreases |a|
  {
    hide ReadLine;
    if a == [] {
      assert a + b == b;
    } else {
      assert (a + b)[1..] == a[1..] + b;
      ReadLinesInTurn(ReadLine(out, n, a[0]).value, n + 1, a[1..], b);
    }
  }

  lemma RefusedThere(lines: seq<string>, k: nat, cs: seq<Combo>)
    requires k < |lines| && Lists(lines[..k], cs) && AllDiffer(cs)
    ensures var read := ReadLine(cs, k + 1, lines[k]);
            ReadLines([], 1, lines) == if read.Failed? then read else ReadLines(read.value, k + 2, lines[k + 1..])
    ensures ReadLines([], 1, lines[..k + 1]) == ReadLine(cs, k + 1, lines[k])
  {
    hide ReadLine, Lists, AllDiffer;
    NoneDiffer();
    assert [] + cs == cs;
    ReadLinesIff([], 1, lines[..k], cs);
    assert lines == lines[..k] + lines[k..] && lines[k..][1..] == lines[k + 1..];
    ReadLinesInTurn([], 1, lines[..k], lines[k..]);
    assert lines[..k + 1] == lines[..k] + [lines[k]] && [lines[k]][1..] == [];
    ReadLinesInTurn([], 1, lines[..k], [lines[k]]);
  }

  lemma {:induction false} FindRefusedLine(lines: seq<string>, n: nat, cs: seq<Combo>)
    returns (k: nat, before: seq<Combo>)
    requires n <= |lines| && Lists(lines[..n], cs) && AllDiffer(cs) && ReadLines([], 1, lines).Failed?
    ensures FileRefused(lines, k, before, ReadLines([], 1, lines).error)
    decreases |lines| - n
  {
    hide ReadLines, ReadLine, Lists, AllDiffer, LineRefused, LineWords;
    NoneDiffer();
    assert [] + cs == cs && lines[..|lines|] == lines;
    ReadLinesIff([], 1, lines[..n], cs);
    RefusedThere(lines, n, cs);
    if ReadLine(cs, n + 1, lines[n]).Failed? {
      k, before := n, cs;
      LineRefusedIff(cs, n + 1, lines[n], ReadLines([], 1, lines).error);
    } else {
      var more := ReadLine(cs, n + 1, lines[n]).value;
      assert [] + more == more;
      ReadLinesIff([], 1, lines[..n + 1], more);
      k, before := FindRefusedLine(lines, n + 1, more);
    }
  }

  /** A file is refused exactly for its first line that is refused, or because nothing is listed. */
  lemma CombosRefusedIff(text: string, e: Error)
    ensures Combos(text) == Failed(e) <==>
            var lines := SplitLines(text);
            || (Lists(lines, []) && e == NothingListed)
            || exists k: nat, cs :: FileRefused(lines, k, cs, e)
  {
    hide ReadLines, ReadLine, SplitLines, Lists, AllDiffer, LineRefused, LineWords;
    var lines := SplitLines(text);
    NoneDiffer();
    var none: seq<Combo> := [];
    assert none + none == none;
    ReadLinesIff(none, 1, lines, none);
    if ReadLines([], 1, lines).Failed? {
      ListsNothing();
      assert lines[..0] == [];
      var k, cs := FindRefusedLine(lines, 0, []);
    }
    forall k: nat, cs | FileRefused(lines, k, cs, e)
      ensures Combos(text) == Failed(e)
    {
      RefusedThere(lines, k, cs);
      LineRefusedIff(cs, k + 1, lines[k], e);
    }
  }

  lemma ListsNothing()
    ensures Lists([], [])
  {
  }
}

/** `check-feature-matrix.py`, `parse_combos`: the file that lists the feature combinations. */
module ComboFile {
  import opened Text
  import opened FeatureMatrix

  datatype Error =
    | LibTwice(line: nat)
    | UnknownAnnotation(line: nat, word: string)
    | ListedTwice(line: nat, features: string)
    | NothingListed

  datatype Parsed<T> = Done(value: T) | Failed(error: Error)

  // ---------------------------------------------------------------- words

  function WordLength(s: string): (n: nat)
    ensures n <= |s| && (forall k :: 0 <= k < n ==> !IsSpace(s[k])) && (n < |s| ==> IsSpace(s[n]))
  {
    if s == [] || IsSpace(s[0]) then 0 else 1 + WordLength(s[1..])
  }

  /** `s.split()`. */
  function Words(s: string): seq<string>
    decreases |s|
  {
    if s == [] then []
    else if IsSpace(s[0]) then Words(s[1..])
    else [s[..WordLength(s)]] + Words(s[WordLength(s)..])
  }

  /** `s.split("#", 1)[0]`. */
  function Uncommented(s: string): (r: string)
    ensures |r| <= |s|
  {
    if s == [] || s[0] == '#' then [] else [s[0]] + Uncommented(s[1..])
  }

  function DropFirst(s: string, c: char): string {
    if s != [] && s[0] == c then DropFirst(s[1..], c) else s
  }

  function DropLast(s: string, c: char): string {
    if s != [] && s[|s| - 1] == c then DropLast(s[..|s| - 1], c) else s
  }

  /** `s.strip(c)`. */
  function StripOf(s: string, c: char): string {
    DropLast(DropFirst(s, c), c)
  }

  // ---------------------------------------------------------------- one line

  const TEST := "test="
  const NEEDS := "needs="

  function Annotated(combo: Combo, line: nat, word: string): Parsed<Combo> {
    if word == "suite" then Done(combo.(suite := true))
    else if word == "lib" then if combo.lib then Failed(LibTwice(line)) else Done(combo.(lib := true))
    else if StartsWith(word, TEST) && |word| > 5 then Done(combo.(tests := combo.tests + [word[5..]]))
    else if StartsWith(word, NEEDS) && |word| > 6 then Done(combo.(needs := combo.needs + [word[6..]]))
    else Failed(UnknownAnnotation(line, word))
  }

  function AnnotatedAll(combo: Combo, line: nat, words: seq<string>): Parsed<Combo>
    decreases |words|
  {
    if words == [] then Done(combo)
    else
      match Annotated(combo, line, words[0])
      case Failed(e) => Failed(e)
      case Done(more) => AnnotatedAll(more, line, words[1..])
  }

  function Named(word: string): Combo {
    Combo(StripOf(StripOf(word, '"'), '\''), [], false, [], false)
  }

  predicate IsListed(out: seq<Combo>, features: string) {
    exists c :: c in out && c.features == features
  }

  /** A line read: the combinations before it, and the one it lists if it lists one. */
  function ReadLine(out: seq<Combo>, n: nat, raw: string): Parsed<seq<Combo>> {
    var words := Words(Strip(Uncommented(raw)));
    if words == [] then Done(out)
    else
      match AnnotatedAll(Named(words[0]), n, words[1..])
      case Failed(e) => Failed(e)
      case Done(combo) =>
        if IsListed(out, combo.features) then Failed(ListedTwice(n, combo.features)) else Done(out + [combo])
  }

  function ReadLines(out: seq<Combo>, n: nat, lines: seq<string>): Parsed<seq<Combo>>
    decreases |lines|
  {
    if lines == [] then Done(out)
    else
      match ReadLine(out, n, lines[0])
      case Failed(e) => Failed(e)
      case Done(more) => ReadLines(more, n + 1, lines[1..])
  }

  function Combos(text: string): Parsed<seq<Combo>> {
    match ReadLines([], 1, SplitLines(text))
    case Failed(e) => Failed(e)
    case Done(out) => if out == [] then Failed(NothingListed) else Done(out)
  }

  method ParseCombos(text: string) returns (r: Parsed<seq<Combo>>)
    ensures r == Combos(text)
  {
    hide Words, Strip, Annotated, SplitLines, Uncommented, Named;
    var lines := SplitLines(text);
    var out: seq<Combo> := [];
    assert lines[0..] == lines;
    for k := 0 to |lines|
      invariant ReadLines(out, k + 1, lines[k..]) == ReadLines([], 1, lines)
    {
      assert lines[k..][1..] == lines[k + 1..];
      var words := Words(Strip(Uncommented(lines[k])));
      if words == [] {
        continue;
      }
      var read := ReadAnnotations(Named(words[0]), k + 1, words[1..]);
      if read.Failed? {
        return Failed(read.error);
      }
      if exists c :: c in out && c.features == read.value.features {
        return Failed(ListedTwice(k + 1, read.value.features));
      }
      out := out + [read.value];
    }
    if out == [] {
      return Failed(NothingListed);
    }
    return Done(out);
  }

  method ReadAnnotations(start: Combo, line: nat, words: seq<string>) returns (r: Parsed<Combo>)
    ensures r == AnnotatedAll(start, line, words)
  {
    hide StartsWith;
    var combo := start;
    assert words[0..] == words;
    for k := 0 to |words|
      invariant AnnotatedAll(combo, line, words[k..]) == AnnotatedAll(start, line, words)
    {
      var word := words[k];
      assert words[k..][1..] == words[k + 1..];
      if word == "suite" {
        combo := combo.(suite := true);
      } else if word == "lib" {
        if combo.lib {
          return Failed(LibTwice(line));
        }
        combo := combo.(lib := true);
      } else if StartsWith(word, TEST) && |word| > 5 {
        combo := combo.(tests := combo.tests + [word[5..]]);
      } else if StartsWith(word, NEEDS) && |word| > 6 {
        combo := combo.(needs := combo.needs + [word[6..]]);
      } else {
        return Failed(UnknownAnnotation(line, word));
      }
    }
    return Done(combo);
  }

  // ---------------------------------------------------------------- what a file can list

  /** No two combinations have the same features. */
  ghost predicate AllDiffer(cs: seq<Combo>) {
    forall i, j :: 0 <= i < j < |cs| ==> cs[i].features != cs[j].features
  }

  lemma {:induction false} ReadLinesDiffer(out: seq<Combo>, n: nat, lines: seq<string>)
    requires AllDiffer(out) && ReadLines(out, n, lines).Done?
    ensures AllDiffer(ReadLines(out, n, lines).value)
    decreases |lines|
  {
    hide Words, Strip, AnnotatedAll, Uncommented, Named;
    if lines != [] {
      ReadLinesDiffer(ReadLine(out, n, lines[0]).value, n + 1, lines[1..]);
    }
  }

  /** Every file that is accepted lists at least one combination and none twice. */
  lemma CombosDiffer(text: string)
    requires Combos(text).Done?
    ensures Combos(text).value != [] && AllDiffer(Combos(text).value)
  {
    hide ReadLines;
    ReadLinesDiffer([], 1, SplitLines(text));
  }
}

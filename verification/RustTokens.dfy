/** `strip_noncode`, stated on the tokens of a line: what is code, a literal or a comment is said of the
    characters that stand there. */
module RustTokens {
  import opened Options
  import opened RustLexer
  import opened RustQuotes
  import opened NestedText
  import RustNesting
  import RustScan

  /** A kind of token; those marked open end with the line, and a string, a raw string with `n` hashes
      and a comment nested `n` times go on behind it. */
  datatype Kind =
    | Plain | CharLiteral | StringLiteral | RawLiteral | BlockComment | LineComment
    | OpenChar | OpenString | OpenRaw(n: nat) | OpenBlock(n: nat)

  datatype Token = Token(kind: Kind, end: nat)

  // ---------------------------------------------------------------- quoted text

  ghost predicate AreUnits(units: seq<string>, quote: char) {
    forall u :: u in units ==> IsUnit(u, quote)
  }

  /** Units from `j` up to the quote just before `end`. */
  ghost predicate ClosedText(line: string, j: nat, end: nat, quote: char, units: seq<string>) {
    j < end <= |line| && line[end - 1] == quote && line[j..end - 1] == UnitText(units) && AreUnits(units, quote)
  }

  /** Units from `j` to the end of the line, where a last backslash may have nothing to escape. */
  ghost predicate OpenText(line: string, j: nat, quote: char, units: seq<string>) {
    && j <= |line| && AreUnits(units, quote)
    && (line[j..] == UnitText(units) || line[j..] == UnitText(units) + "\\")
  }

  ghost predicate TextCloses(line: string, j: nat, end: nat, quote: char) {
    exists units :: ClosedText(line, j, end, quote, units)
  }

  ghost predicate TextStaysOpen(line: string, j: nat, quote: char) {
    exists units :: OpenText(line, j, quote, units)
  }

  predicate QuoteOf(s: State, quote: char) {
    (s == Str && quote == '"') || (s == CharBody && quote == '\'')
  }

  lemma {:induction false} UnitsRun(
    alnum: char -> bool, line: string, j: nat, s: State, quote: char, units: seq<string>)
    requires QuoteOf(s, quote) && AreUnits(units, quote)
    requires j + |UnitText(units)| <= |line| && line[j..j + |UnitText(units)|] == UnitText(units)
    ensures Run(alnum, line, j, s) == Run(alnum, line, j + |UnitText(units)|, s)
    decreases units
  {
    hide Run;
    if units != [] {
      var u, rest := units[0], UnitText(units[1..]);
      var text := line[j..j + |UnitText(units)|];
      assert u in units;
      assert text == u + rest;
      assert line[j] == text[0] == u[0];
      assert line[j + |u|..j + |u| + |rest|] == text[|u|..] == rest;
      if |u| == 2 {
        RustScan.SkipTwo(alnum, line, j, s);
      } else {
        RustScan.QuietStep(alnum, line, j, s, s);
      }
      UnitsRun(alnum, line, j + |u|, s, quote, units[1..]);
    }
  }

  lemma ClosedRun(alnum: char -> bool, line: string, j: nat, end: nat, s: State, quote: char)
    requires QuoteOf(s, quote) && TextCloses(line, j, end, quote)
    ensures end <= |line| && Run(alnum, line, j, s) == Run(alnum, line, end, Code)
  {
    hide Run, AreUnits;
    var units :| ClosedText(line, j, end, quote, units);
    UnitsRun(alnum, line, j, s, quote, units);
    RustScan.QuietStep(alnum, line, end - 1, s, Code);
  }

  lemma OpenRun(alnum: char -> bool, line: string, j: nat, s: State, quote: char)
    requires QuoteOf(s, quote) && TextStaysOpen(line, j, quote)
    ensures j <= |line| && Run(alnum, line, j, s) == SimpleEnd(s)
  {
    hide Run, AreUnits;
    var units :| OpenText(line, j, quote, units);
    var n := |UnitText(units)|;
    assert line[j..][..n] == line[j..j + n] == UnitText(units);
    UnitsRun(alnum, line, j, s, quote, units);
    if j + n == |line| {
      RustScan.EndStep(alnum, line, s);
    } else {
      assert line[j + n] == line[j..][n] == '\\';
      RustScan.SkipTwo(alnum, line, j + n, s);
    }
  }

  lemma ClosedCons(line: string, j: nat, m: nat, end: nat, quote: char, more: seq<string>)
    requires j + m <= |line| && IsUnit(line[j..j + m], quote) && ClosedText(line, j + m, end, quote, more)
    ensures ClosedText(line, j, end, quote, [line[j..j + m]] + more)
  {
    hide IsUnit;
    assert ([line[j..j + m]] + more)[1..] == more;
    assert line[j..end - 1] == line[j..j + m] + line[j + m..end - 1];
  }

  lemma OpenCons(line: string, j: nat, m: nat, quote: char, more: seq<string>)
    requires j + m <= |line| && IsUnit(line[j..j + m], quote) && OpenText(line, j + m, quote, more)
    ensures OpenText(line, j, quote, [line[j..j + m]] + more)
  {
    hide IsUnit;
    var u := line[j..j + m];
    assert ([u] + more)[1..] == more;
    assert line[j..] == u + line[j + m..];
    assert u + (UnitText(more) + "\\") == (u + UnitText(more)) + "\\";
  }

  /** Any text is units up to a quote, or units to the end of the line. */
  lemma {:induction false} TextEnds(line: string, j: nat, quote: char) returns (end: nat, closed: bool)
    requires j <= |line| && quote != '\\'
    ensures if closed then TextCloses(line, j, end, quote) else TextStaysOpen(line, j, quote)
    decreases |line| - j
  {
    hide ClosedText, OpenText;
    if j == |line| || line[j] == quote || line[j..] == "\\" {
      end, closed := j + 1, j < |line| && line[j] == quote;
      NoUnits(line, j, quote);
    } else {
      var m := if line[j] == '\\' then 2 else 1;
      assert j + 1 == |line| ==> line[j..] == [line[j]];
      end, closed := TextEnds(line, j + m, quote);
      if closed {
        var more :| ClosedText(line, j + m, end, quote, more);
        ClosedCons(line, j, m, end, quote, more);
      } else {
        var more :| OpenText(line, j + m, quote, more);
        OpenCons(line, j, m, quote, more);
      }
    }
  }

  lemma NoUnits(line: string, j: nat, quote: char)
    requires j <= |line|
    ensures j < |line| && line[j] == quote ==> ClosedText(line, j, j + 1, quote, [])
    ensures j == |line| || line[j..] == "\\" ==> OpenText(line, j, quote, [])
  {
    assert "" + "\\" == "\\";
  }

  // ---------------------------------------------------------------- tokens

  /** A raw string with `n` hashes whose text starts at `j` ends just behind the first closer. */
  predicate RawCloses(line: string, j: nat, end: nat, n: nat) {
    && j + 1 + n <= end <= |line| && Closes(line, end - 1 - n, n)
    && forall k :: j <= k < end - 1 - n ==> !Closes(line, k, n)
  }

  predicate RawStaysOpen(line: string, j: nat, n: nat) {
    forall k :: j <= k < |line| ==> !Closes(line, k, n)
  }

  /** A comment nested `depth` times at `j` ends where its closings first match its openings. */
  ghost predicate BlockCloses(line: string, j: nat, end: nat, depth: nat) {
    exists parts, after :: BlockReads(line, j, depth, parts, after) && after != "" && end == |line| - |after| + 2
  }

  /** A comment nested `depth` times at `j` is nested `n` times at the end of the line. */
  ghost predicate BlockStaysOpen(line: string, j: nat, depth: nat, n: nat) {
    exists parts :: BlockReads(line, j, depth, parts, "") && n == depth + Net(parts)
  }

  ghost predicate BlockReads(line: string, j: nat, depth: nat, parts: seq<Part>, after: string) {
    j <= |line| && Splits(line[j..], depth, parts, after)
  }

  /** A character between two ticks, or an escape and further text between them. */
  ghost predicate CharCloses(line: string, i: nat, end: nat) {
    && i + 2 < |line| && line[i] == '\''
    && if line[i + 1] == '\\' then TextCloses(line, i + 1, end, '\'') else line[i + 2] == '\'' && end == i + 3
  }

  /** A tick that is followed by neither an escape nor, two on, another tick. */
  predicate IsLifetime(line: string, i: nat) {
    && i < |line| && line[i] == '\'' && !(i + 1 < |line| && line[i + 1] == '\\')
    && !(i + 2 < |line| && line[i + 2] == '\'')
  }

  ghost predicate TokenAt(alnum: char -> bool, line: string, i: nat, t: Token)
    requires i < |line|
  {
    match t.kind
    case Plain =>
      && t.end == i + 1 && line[i] != '"' && (line[i] == '\'' ==> IsLifetime(line, i))
      && !PairAt(line, i, '/', '/') && !PairAt(line, i, '/', '*')
    case CharLiteral => CharCloses(line, i, t.end)
    case StringLiteral => line[i] == '"' && RawHashes(alnum, line, i).None? && TextCloses(line, i + 1, t.end, '"')
    case RawLiteral =>
      line[i] == '"' && RawHashes(alnum, line, i).Some? &&
      RawCloses(line, i + 1, t.end, RawHashes(alnum, line, i).value)
    case BlockComment => PairAt(line, i, '/', '*') && BlockCloses(line, i + 2, t.end, 1)
    case LineComment => PairAt(line, i, '/', '/') && t.end == |line|
    case OpenChar => PairAt(line, i, '\'', '\\') && t.end == |line| && TextStaysOpen(line, i + 1, '\'')
    case OpenString =>
      line[i] == '"' && RawHashes(alnum, line, i).None? && t.end == |line| && TextStaysOpen(line, i + 1, '"')
    case OpenRaw(n) =>
      line[i] == '"' && RawHashes(alnum, line, i) == Some(n) && t.end == |line| && RawStaysOpen(line, i + 1, n)
    case OpenBlock(n) => PairAt(line, i, '/', '*') && t.end == |line| && BlockStaysOpen(line, i + 2, 1, n)
  }

  /** What a token at the end of the line leaves open behind it. */
  function After(kind: Kind): Carried {
    match kind
    case OpenString => Carried(STR, 0)
    case OpenRaw(n) => Carried(RAW, n)
    case OpenBlock(n) => Carried(BLOCK, n)
    case _ => START
  }

  lemma RawCloseRun(alnum: char -> bool, line: string, j: nat, end: nat, n: nat)
    requires RawCloses(line, j, end, n)
    ensures Run(alnum, line, j, Raw(n)) == Run(alnum, line, end, Code)
  {
    hide Run, Closes;
    RustScan.RawRun(alnum, line, j, n);
    CloserIs(line, j, n, end - 1 - n);
  }

  lemma RawOpenRun(alnum: char -> bool, line: string, j: nat, n: nat)
    requires j <= |line| && RawStaysOpen(line, j, n)
    ensures Run(alnum, line, j, Raw(n)) == Outcome("", Carried(RAW, n))
  {
    hide Run;
    RustScan.RawRun(alnum, line, j, n);
    var at := FindCloser(line, j, n);
    assert at.Some? ==> Closes(line, at.value, n);
  }

  lemma BlockCloseRun(alnum: char -> bool, line: string, j: nat, end: nat, depth: nat)
    requires BlockCloses(line, j, end, depth)
    ensures j < end <= |line| && Run(alnum, line, j, Block(depth)) == Run(alnum, line, end, Code)
  {
    hide Run, StaysOpen, Net, Splits, StandsAt;
    var parts, after :| BlockReads(line, j, depth, parts, after) && after != "" && end == |line| - |after| + 2;
    SplitStands(line, j, depth, parts, after);
    RustNesting.PartsPass(alnum, line, j, parts, after, depth);
    RustScan.BlockTurn(alnum, line, j + |Written(parts)|, 1);
  }

  lemma BlockOpenRun(alnum: char -> bool, line: string, j: nat, depth: nat, n: nat)
    requires BlockStaysOpen(line, j, depth, n)
    ensures j <= |line| && n >= 1 && Run(alnum, line, j, Block(depth)) == Outcome("", Carried(BLOCK, n))
  {
    hide Run, StaysOpen, Net, Splits, StandsAt;
    var parts :| BlockReads(line, j, depth, parts, "") && n == depth + Net(parts);
    SplitStands(line, j, depth, parts, "");
    RustNesting.PartsPass(alnum, line, j, parts, "", depth);
    RustScan.EndStep(alnum, line, Block(n));
  }

  /** What the scanner does over a token: code is kept and the rest dropped, or the line ends. */
  lemma TokenRuns(alnum: char -> bool, line: string, i: nat, t: Token)
    requires i < |line| && TokenAt(alnum, line, i, t)
    ensures i < t.end <= |line|
    ensures Run(alnum, line, i, Code) ==
            if t.end == |line| && After(t.kind) != START then Outcome("", After(t.kind))
            else Before(if t.kind.Plain? then [line[i]] else "", Run(alnum, line, t.end, Code))
  {
    hide Run, RawHashes, TextCloses, TextStaysOpen, BlockCloses, BlockStaysOpen, RawCloses, RawStaysOpen;
    match t.kind {
      case Plain => PlainRuns(alnum, line, i);
      case CharLiteral => CharRuns(alnum, line, i, t.end);
      case StringLiteral =>
        RustScan.QuoteRun(alnum, line, i);
        TextCloseEnds(line, i + 1, t.end, '"');
        ClosedRun(alnum, line, i + 1, t.end, Str, '"');
      case RawLiteral =>
        var n := RawHashes(alnum, line, i).value;
        RustScan.QuoteRun(alnum, line, i);
        RawCloseEnds(line, i + 1, t.end, n);
        RawCloseRun(alnum, line, i + 1, t.end, n);
      case BlockComment =>
        RustScan.SlashRun(alnum, line, i);
        BlockCloseRun(alnum, line, i + 2, t.end, 1);
      case LineComment =>
        RustScan.SlashRun(alnum, line, i);
        RustScan.EndStep(alnum, line, Code);
      case OpenChar =>
        RustScan.EscapeRun(alnum, line, i);
        OpenRun(alnum, line, i + 1, CharBody, '\'');
        RustScan.EndStep(alnum, line, Code);
      case OpenString =>
        RustScan.QuoteRun(alnum, line, i);
        OpenRun(alnum, line, i + 1, Str, '"');
      case OpenRaw(n) =>
        RustScan.QuoteRun(alnum, line, i);
        RawOpenRun(alnum, line, i + 1, n);
      case OpenBlock(n) =>
        RustScan.SlashRun(alnum, line, i);
        BlockOpenRun(alnum, line, i + 2, 1, n);
    }
    RustScan.BeforeNothing(Run(alnum, line, t.end, Code));
  }

  lemma TextCloseEnds(line: string, j: nat, end: nat, quote: char)
    requires TextCloses(line, j, end, quote)
    ensures j < end <= |line|
  {
  }

  lemma RawCloseEnds(line: string, j: nat, end: nat, n: nat)
    requires RawCloses(line, j, end, n)
    ensures j < end <= |line|
  {
  }

  lemma PlainRuns(alnum: char -> bool, line: string, i: nat)
    requires i < |line| && line[i] != '"' && (line[i] == '\'' ==> IsLifetime(line, i))
    requires !PairAt(line, i, '/', '/') && !PairAt(line, i, '/', '*')
    ensures Run(alnum, line, i, Code) == Before([line[i]], Run(alnum, line, i + 1, Code))
  {
    hide Run;
    if line[i] == '/' {
      RustScan.SlashRun(alnum, line, i);
    } else if line[i] == '\'' {
      RustScan.LifetimeRun(alnum, line, i);
    } else {
      RustScan.OneStep(alnum, line, i, Code);
    }
  }

  lemma CharRuns(alnum: char -> bool, line: string, i: nat, end: nat)
    requires CharCloses(line, i, end)
    ensures i < end <= |line| && Run(alnum, line, i, Code) == Run(alnum, line, end, Code)
  {
    hide Run, TextCloses;
    if line[i + 1] == '\\' {
      RustScan.EscapeRun(alnum, line, i);
      TextCloseEnds(line, i + 1, end, '\'');
      ClosedRun(alnum, line, i + 1, end, CharBody, '\'');
    } else {
      RustScan.CharRun(alnum, line, i);
    }
  }

  /** Some token stands at every place of a line that is code. */
  lemma TokenExists(alnum: char -> bool, line: string, i: nat) returns (t: Token)
    requires i < |line|
    ensures TokenAt(alnum, line, i, t)
  {
    hide RawHashes, TextCloses, TextStaysOpen, BlockCloses, BlockStaysOpen, RawCloses, RawStaysOpen;
    if PairAt(line, i, '/', '/') {
      t := Token(LineComment, |line|);
    } else if PairAt(line, i, '/', '*') {
      t := BlockEnds(line, i + 2, 1);
    } else if line[i] == '"' {
      var h := RawHashes(alnum, line, i);
      if h.Some? {
        t := RawEnds(line, i + 1, h.value);
      } else {
        var end, closed := TextEnds(line, i + 1, '"');
        t := if closed then Token(StringLiteral, end) else Token(OpenString, |line|);
      }
    } else if PairAt(line, i, '\'', '\\') {
      var end, closed := TextEnds(line, i + 1, '\'');
      t := if closed then Token(CharLiteral, end) else Token(OpenChar, |line|);
      if closed {
        EscapeIsLong(line, i + 1, end);
      }
    } else if line[i] == '\'' && i + 2 < |line| && line[i + 2] == '\'' {
      t := Token(CharLiteral, i + 3);
    } else {
      t := Token(Plain, i + 1);
    }
  }

  lemma EscapeIsLong(line: string, j: nat, end: nat)
    requires TextCloses(line, j, end, '\'') && j < |line| && line[j] == '\\'
    ensures j + 1 < |line|
  {
    var units :| ClosedText(line, j, end, '\'', units);
    assert end - 1 != j;
  }

  lemma BlockEnds(line: string, j: nat, depth: nat) returns (t: Token)
    requires j <= |line| && depth >= 1
    ensures || (t.kind.BlockComment? && BlockCloses(line, j, t.end, depth))
            || (t.kind.OpenBlock? && t.end == |line| && BlockStaysOpen(line, j, depth, t.kind.n))
  {
    hide StaysOpen, Net, Clean;
    var parts, after := SplitExists(line[j..], depth);
    assert BlockReads(line, j, depth, parts, after);
    if after == "" {
      StaysOpenNow(parts, depth);
      t := Token(OpenBlock(depth + Net(parts)), |line|);
    } else {
      t := Token(BlockComment, |line| - |after| + 2);
    }
  }

  lemma RawEnds(line: string, j: nat, n: nat) returns (t: Token)
    ensures || (t.kind.RawLiteral? && RawCloses(line, j, t.end, n))
            || (t.kind == OpenRaw(n) && t.end == |line| && RawStaysOpen(line, j, n))
  {
    var at := FindCloser(line, j, n);
    t := if at.Some? then Token(RawLiteral, at.value + 1 + n) else Token(OpenRaw(n), |line|);
  }

  // ---------------------------------------------------------------- lines

  /** The tokens follow one another from `i` to the end of the line. */
  ghost predicate Tiles(alnum: char -> bool, line: string, i: nat, tokens: seq<Token>)
    decreases |tokens|
  {
    if tokens == [] then i == |line|
    else i < |line| && TokenAt(alnum, line, i, tokens[0]) && Tiles(alnum, line, tokens[0].end, tokens[1..])
  }

  /** The plain characters among the tokens from `i` on. */
  function Kept(line: string, i: nat, tokens: seq<Token>): string
    decreases |tokens|
  {
    if tokens == [] || i >= |line| then ""
    else (if tokens[0].kind.Plain? then [line[i]] else "") + Kept(line, tokens[0].end, tokens[1..])
  }

  /** What the last token leaves open. */
  function Left(tokens: seq<Token>): Carried {
    if tokens == [] then START else After(tokens[|tokens| - 1].kind)
  }

  /** The rest of what the line before left open, up to the end of the first token. */
  ghost predicate Continues(line: string, c: Carried, t: Token) {
    match c.kind
    case CODE => false
    case STR =>
      || (t.kind.StringLiteral? && TextCloses(line, 0, t.end, '"'))
      || (t.kind.OpenString? && t.end == |line| && TextStaysOpen(line, 0, '"'))
    case RAW =>
      || (t.kind.RawLiteral? && RawCloses(line, 0, t.end, c.n))
      || (t.kind == OpenRaw(c.n) && t.end == |line| && RawStaysOpen(line, 0, c.n))
    case BLOCK =>
      || (t.kind.BlockComment? && BlockCloses(line, 0, t.end, c.n))
      || (t.kind.OpenBlock? && t.end == |line| && BlockStaysOpen(line, 0, c.n, t.kind.n))
  }

  ghost predicate LineTiles(alnum: char -> bool, line: string, c: Carried, tokens: seq<Token>) {
    if c.kind.CODE? then Tiles(alnum, line, 0, tokens)
    else tokens != [] && Continues(line, c, tokens[0]) && Tiles(alnum, line, tokens[0].end, tokens[1..])
  }

  lemma EndOfCode(alnum: char -> bool, line: string)
    ensures Run(alnum, line, |line|, Code) == Outcome("", START)
  {
  }

  lemma {:induction false} TilesRun(alnum: char -> bool, line: string, i: nat, tokens: seq<Token>)
    requires Tiles(alnum, line, i, tokens)
    ensures i <= |line| && Run(alnum, line, i, Code) == Outcome(Kept(line, i, tokens), Left(tokens))
    decreases |tokens|
  {
    hide Run, TokenAt;
    EndOfCode(alnum, line);
    if tokens != [] {
      var t := tokens[0];
      TokenRuns(alnum, line, i, t);
      TilesRun(alnum, line, t.end, tokens[1..]);
      if tokens[1..] == [] {
        assert tokens == [t];
      } else {
        assert t.end < |line|;
        assert tokens[1..][|tokens| - 2] == tokens[|tokens| - 1];
      }
    }
  }

  lemma {:induction false} TilesExist(alnum: char -> bool, line: string, i: nat) returns (tokens: seq<Token>)
    requires i <= |line|
    ensures Tiles(alnum, line, i, tokens)
    decreases |line| - i
  {
    hide TokenAt;
    if i == |line| {
      tokens := [];
    } else {
      var t := TokenExists(alnum, line, i);
      TokenRuns(alnum, line, i, t);
      var more := TilesExist(alnum, line, t.end);
      tokens := [t] + more;
      assert tokens[1..] == more;
    }
  }

  lemma ContinuesRun(alnum: char -> bool, line: string, c: Carried, t: Token)
    requires Valid(c) && Continues(line, c, t)
    ensures t.end <= |line| && !t.kind.Plain?
    ensures Run(alnum, line, 0, Resume(c)) ==
            if After(t.kind) != START then Outcome("", After(t.kind)) else Run(alnum, line, t.end, Code)
    ensures After(t.kind) != START ==> t.end == |line|
  {
    hide Run, TextCloses, TextStaysOpen, BlockCloses, BlockStaysOpen, RawCloses, RawStaysOpen;
    match t.kind {
      case StringLiteral => ClosedRun(alnum, line, 0, t.end, Str, '"');
      case OpenString => OpenRun(alnum, line, 0, Str, '"');
      case RawLiteral =>
        RawCloseEnds(line, 0, t.end, c.n);
        RawCloseRun(alnum, line, 0, t.end, c.n);
      case OpenRaw(n) => RawOpenRun(alnum, line, 0, n);
      case BlockComment => BlockCloseRun(alnum, line, 0, t.end, c.n);
      case OpenBlock(n) => BlockOpenRun(alnum, line, 0, c.n, n);
      case _ =>
    }
  }

  lemma ContinuesExists(line: string, c: Carried) returns (t: Token)
    requires Valid(c) && !c.kind.CODE?
    ensures Continues(line, c, t)
  {
    hide TextCloses, TextStaysOpen, BlockCloses, BlockStaysOpen, RawCloses, RawStaysOpen;
    match c.kind {
      case STR =>
        var end, closed := TextEnds(line, 0, '"');
        t := if closed then Token(StringLiteral, end) else Token(OpenString, |line|);
      case RAW => t := RawEnds(line, 0, c.n);
      case BLOCK => t := BlockEnds(line, 0, c.n);
    }
  }

  lemma LineTilesRun(alnum: char -> bool, line: string, c: Carried, tokens: seq<Token>)
    requires Valid(c) && LineTiles(alnum, line, c, tokens)
    ensures Strip(alnum, line, c) == Outcome(LineKept(line, c, tokens), Left(tokens))
  {
    hide Run, TokenAt, Continues, Tiles;
    if c.kind.CODE? {
      TilesRun(alnum, line, 0, tokens);
    } else {
      var t := tokens[0];
      ContinuesRun(alnum, line, c, t);
      TilesRun(alnum, line, t.end, tokens[1..]);
      NothingFollows(alnum, line, t.end, tokens[1..]);
      if tokens[1..] == [] {
        assert tokens == [t];
      } else {
        assert tokens[1..][|tokens| - 2] == tokens[|tokens| - 1];
      }
    }
  }

  lemma NothingFollows(alnum: char -> bool, line: string, i: nat, tokens: seq<Token>)
    requires Tiles(alnum, line, i, tokens)
    ensures i == |line| ==> tokens == []
    ensures tokens == [] ==> i == |line| && Kept(line, i, tokens) == ""
  {
  }

  /** What is kept of a line: its plain characters, from behind what the line before left open. */
  function LineKept(line: string, c: Carried, tokens: seq<Token>): string {
    if c.kind.CODE? then Kept(line, 0, tokens)
    else if tokens == [] then ""
    else Kept(line, tokens[0].end, tokens[1..])
  }

  /** Of any line the scanner keeps exactly the plain characters among its tokens, and it carries exactly
      what the last of them leaves open. */
  lemma StripIff(alnum: char -> bool, line: string, c: Carried, o: Outcome)
    requires Valid(c)
    ensures Strip(alnum, line, c) == o <==>
            exists tokens :: LineTiles(alnum, line, c, tokens) && o == Outcome(LineKept(line, c, tokens), Left(tokens))
  {
    hide Strip, LineTiles, Left, LineKept;
    var tokens := LineTilesExist(alnum, line, c);
    LineTilesRun(alnum, line, c, tokens);
    forall ts | LineTiles(alnum, line, c, ts)
      ensures Strip(alnum, line, c) == Outcome(LineKept(line, c, ts), Left(ts))
    {
      LineTilesRun(alnum, line, c, ts);
    }
  }

  lemma LineTilesExist(alnum: char -> bool, line: string, c: Carried) returns (tokens: seq<Token>)
    requires Valid(c)
    ensures LineTiles(alnum, line, c, tokens)
  {
    hide TokenAt, Continues, Run;
    if c.kind.CODE? {
      tokens := TilesExist(alnum, line, 0);
    } else {
      var t := ContinuesExists(line, c);
      ContinuesRun(alnum, line, c, t);
      var more := TilesExist(alnum, line, t.end);
      tokens := [t] + more;
      assert tokens[1..] == more;
    }
  }
}

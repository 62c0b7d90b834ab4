/** `flag-since.py`, `strip_comments`: Rust source with every comment blanked and every literal kept.
    `alnum` stands for Python's `str.isalnum`. */
module Comments {
  import opened Options
  import opened RustQuotes

  datatype Error = UnterminatedString(at: nat) | UnterminatedRawString(at: nat)
  datatype Result<T> = Ok(value: T) | Err(error: Error)

  // ---------------------------------------------------------------- comments

  /** The first newline at or after `i`; the end of the text if there is none. */
  function LineEnd(src: string, i: nat): (j: nat)
    requires i <= |src|
    ensures i <= j <= |src| && (forall k :: i <= k < j ==> src[k] != '\n') && (j < |src| ==> src[j] == '\n')
    decreases |src| - i
  {
    if i == |src| || src[i] == '\n' then i else LineEnd(src, i + 1)
  }

  /** Where a block comment ends that is `depth` deep at `j`; one that never closes runs to the end. */
  function BlockEnd(src: string, j: nat, depth: nat): (end: nat)
    requires j <= |src|
    ensures j <= end <= |src|
    ensures depth > 0 && end < |src| ==> j < end && src[end - 1] == '/'
    decreases |src| - j
  {
    if j == |src| || depth == 0 then j
    else if PairAt(src, j, '/', '*') then BlockEnd(src, j + 2, depth + 1)
    else if PairAt(src, j, '*', '/') then BlockEnd(src, j + 2, depth - 1)
    else BlockEnd(src, j + 1, depth)
  }

  method SkipBlock(src: string, start: nat) returns (j: nat)
    requires start <= |src|
    ensures j == BlockEnd(src, start, 1)
  {
    var depth: nat := 1;
    j := start;
    while j < |src| && depth != 0
      invariant j <= |src|
      invariant BlockEnd(src, j, depth) == BlockEnd(src, start, 1)
      decreases |src| - j
    {
      if PairAt(src, j, '/', '*') {
        depth, j := depth + 1, j + 2;
      } else if PairAt(src, j, '*', '/') {
        depth, j := depth - 1, j + 2;
      } else {
        j := j + 1;
      }
    }
  }

  // ---------------------------------------------------------------- literals

  /** Where a plain string ends whose text goes on at `j`. */
  function StringEnd(src: string, j: nat): (end: Option<nat>)
    ensures end.Some? ==> j < end.value <= |src|
    decreases |src| - j
  {
    if j >= |src| then None
    else if src[j] == '\\' then StringEnd(src, j + 2)
    else if src[j] == '"' then Some(j + 1)
    else StringEnd(src, j + 1)
  }

  function HashRun(src: string, i: nat): (n: nat)
    requires i <= |src|
    ensures i + n <= |src| && (forall k :: i <= k < i + n ==> src[k] == '#') && (i + n < |src| ==> src[i + n] != '#')
    decreases |src| - i
  {
    if i < |src| && src[i] == '#' then 1 + HashRun(src, i + 1) else 0
  }

  /** `r`, at most six hashes and a quote at `i`, not the tail of an identifier: only eight characters
      are looked at. */
  predicate StartsRaw(alnum: char -> bool, src: string, i: nat)
    requires i < |src|
  {
    && src[i] == 'r'
    && (var h := HashRun(src, i + 1);
        h <= 6 && i + 1 + h < |src| && src[i + 1 + h] == '"')
    && !(i > 0 && IsIdent(alnum, src[i - 1]))
  }

  /** The next `'` at or after `k`. */
  function NextTick(src: string, k: nat): (at: Option<nat>)
    ensures at.Some? ==> k <= at.value < |src| && src[at.value] == '\''
    ensures at.Some? ==> forall x :: k <= x < at.value ==> src[x] != '\''
    ensures at.None? ==> forall x :: k <= x < |src| ==> src[x] != '\''
    decreases |src| - k
  {
    if k >= |src| then None else if src[k] == '\'' then Some(k) else NextTick(src, k + 1)
  }

  /** Where the character literal starting at `i` ends: an escape runs to the next `'`, anything else
      is one character long. */
  function CharEnd(src: string, i: nat): (end: Option<nat>)
    requires i < |src|
    ensures end.Some? ==> i + 2 < end.value <= |src|
  {
    if i + 2 >= |src| then None
    else if src[i + 1] == '\\' then
      if src[i + 2] == '\n' then None
      else
        match NextTick(src, i + 3)
        case None => None
        case Some(k) => Some(k + 1)
    else if src[i + 1] != '\'' && src[i + 2] == '\'' then Some(i + 3)
    else None
  }

  /** `literal_at`: where the string or character literal starting at `i` ends, if one starts there. */
  function LiteralAt(alnum: char -> bool, src: string, i: nat): (r: Result<Option<nat>>)
    requires i < |src|
    ensures r.Ok? && r.value.Some? ==> i < r.value.value <= |src|
  {
    if src[i] == '"' then
      match StringEnd(src, i + 1)
      case None => Err(UnterminatedString(i))
      case Some(end) => Ok(Some(end))
    else if StartsRaw(alnum, src, i) then
      var h := HashRun(src, i + 1);
      match FindCloser(src, i + 2 + h, h)
      case None => Err(UnterminatedRawString(i))
      case Some(at) => Ok(Some(at + 1 + h))
    else if src[i] == '\'' then Ok(CharEnd(src, i))
    else Ok(None)
  }

  method FindStringEnd(src: string, i: nat) returns (r: Result<nat>)
    requires i < |src|
    ensures r == match StringEnd(src, i + 1) case None => Err(UnterminatedString(i)) case Some(end) => Ok(end)
  {
    var j := i + 1;
    while j < |src|
      invariant StringEnd(src, j) == StringEnd(src, i + 1)
    {
      if src[j] == '\\' {
        j := j + 2;
      } else if src[j] == '"' {
        return Ok(j + 1);
      } else {
        j := j + 1;
      }
    }
    return Err(UnterminatedString(i));
  }

  method FindLiteral(alnum: char -> bool, src: string, i: nat) returns (r: Result<Option<nat>>)
    requires i < |src|
    ensures r == LiteralAt(alnum, src, i)
  {
    hide StringEnd, FindCloser, StartsRaw, CharEnd;
    if src[i] == '"' {
      var end := FindStringEnd(src, i);
      return match end case Ok(j) => Ok(Some(j)) case Err(e) => Err(e);
    }
    if StartsRaw(alnum, src, i) {
      var hashes := HashRun(src, i + 1);
      var at := FindCloser(src, i + 2 + hashes, hashes);
      return if at.None? then Err(UnterminatedRawString(i)) else Ok(Some(at.value + 1 + hashes));
    }
    return Ok(if src[i] == '\'' then CharEnd(src, i) else None);
  }

  // ---------------------------------------------------------------- what a literal is

  /** The units are the text from `j` up to the quote just before `end`. */
  ghost predicate StringText(src: string, j: nat, end: nat, units: seq<string>) {
    && j < end <= |src| && src[end - 1] == '"'
    && src[j..end - 1] == UnitText(units) && forall u :: u in units ==> IsUnit(u, '"')
  }

  lemma {:induction false} FindUnits(src: string, j: nat) returns (units: seq<string>)
    requires StringEnd(src, j).Some?
    ensures StringText(src, j, StringEnd(src, j).value, units)
    decreases |src| - j
  {
    var end := StringEnd(src, j).value;
    if src[j] == '"' {
      units := [];
    } else {
      var m := if src[j] == '\\' then 2 else 1;
      var more := FindUnits(src, j + m);
      units := [src[j..j + m]] + more;
      assert src[j..end - 1] == src[j..j + m] + src[j + m..end - 1];
    }
  }

  lemma {:induction false} UnitsEnd(src: string, j: nat, end: nat, units: seq<string>)
    requires StringText(src, j, end, units)
    ensures StringEnd(src, j) == Some(end)
    decreases units
  {
    if units == [] {
      assert src[j..end - 1] == [];
    } else {
      var m := |units[0]|;
      assert units[0] in units;
      assert src[j..end - 1][..m] == units[0] && src[j..end - 1][m..] == UnitText(units[1..]);
      assert src[j] == src[j..end - 1][0] == units[0][0];
      assert src[j + m..end - 1] == src[j..end - 1][m..];
      UnitsEnd(src, j + m, end, units[1..]);
    }
  }

  /** A raw string as Rust writes it: its text starts behind `r`, `h` hashes and a quote at `i`, and `end`
      is just behind the first quote with as many hashes. */
  ghost predicate RawForm(src: string, i: nat, end: nat, h: nat) {
    && i + 2 + h < end <= |src| && src[i] == 'r'
    && (forall k :: i < k <= i + h ==> src[k] == '#') && src[i + 1 + h] == '"'
    && i + 3 + 2 * h <= end && Closes(src, end - 1 - h, h)
    && forall k :: i + 2 + h <= k < end - 1 - h ==> !Closes(src, k, h)
  }

  /** A raw string with few enough hashes to be noticed. */
  ghost predicate RawLiteral(src: string, i: nat, end: nat, h: nat) {
    h <= 6 && RawForm(src, i, end, h)
  }

  /** A character between two ticks, or an escape that runs to the next tick. */
  ghost predicate CharLiteral(src: string, i: nat, end: nat) {
    && i + 3 <= end <= |src| && src[i] == '\'' && src[end - 1] == '\''
    && if src[i + 1] == '\\' then
         i + 4 <= end && src[i + 2] != '\n' && forall k :: i + 3 <= k < end - 1 ==> src[k] != '\''
       else end == i + 3 && src[i + 1] != '\''
  }

  /** A string that starts at `i`, has these units and ends at `end`. */
  ghost predicate StringLiteral(src: string, i: nat, end: nat, units: seq<string>) {
    i < |src| && src[i] == '"' && StringText(src, i + 1, end, units)
  }

  lemma StringLiteralIff(src: string, i: nat, end: nat)
    requires i < |src| && src[i] == '"'
    ensures StringEnd(src, i + 1) == Some(end) <==> exists units :: StringLiteral(src, i, end, units)
  {
    hide StringEnd, StringText;
    if StringEnd(src, i + 1).Some? {
      var units := FindUnits(src, i + 1);
      assert StringLiteral(src, i, StringEnd(src, i + 1).value, units);
    }
    forall units | StringLiteral(src, i, end, units)
      ensures StringEnd(src, i + 1) == Some(end)
    {
      UnitsEnd(src, i + 1, end, units);
    }
  }

  lemma {:induction false} HashesAre(src: string, i: nat, n: nat)
    requires i + n <= |src| && (i + n < |src| ==> src[i + n] != '#') && forall k :: i <= k < i + n ==> src[k] == '#'
    ensures HashRun(src, i) == n
    decreases n
  {
    if n > 0 {
      HashesAre(src, i + 1, n - 1);
    }
  }

  lemma RawLiteralFound(alnum: char -> bool, src: string, i: nat)
    requires i < |src| && StartsRaw(alnum, src, i)
    requires FindCloser(src, i + 2 + HashRun(src, i + 1), HashRun(src, i + 1)).Some?
    ensures var h := HashRun(src, i + 1);
            RawLiteral(src, i, FindCloser(src, i + 2 + h, h).value + 1 + h, h)
  {
    hide FindCloser, HashRun;
    var h := HashRun(src, i + 1);
    var at := FindCloser(src, i + 2 + h, h).value;
    assert at + 1 + h - 1 - h == at;
  }

  lemma RawLiteralEnds(alnum: char -> bool, src: string, i: nat, end: nat, h: nat)
    requires RawLiteral(src, i, end, h) && !(i > 0 && IsIdent(alnum, src[i - 1]))
    ensures HashRun(src, i + 1) == h && StartsRaw(alnum, src, i) && FindCloser(src, i + 2 + h, h) == Some(end - 1 - h)
  {
    hide FindCloser, HashRun, Closes;
    HashesAre(src, i + 1, h);
    CloserIs(src, i + 2 + h, h, end - 1 - h);
  }

  lemma RawLiteralIff(alnum: char -> bool, src: string, i: nat, end: nat)
    requires i < |src| && src[i] == 'r' && !(i > 0 && IsIdent(alnum, src[i - 1]))
    ensures LiteralAt(alnum, src, i) == Ok(Some(end)) <==> exists h :: RawLiteral(src, i, end, h)
  {
    hide FindCloser, StringEnd, HashRun, StartsRaw, RawLiteral;
    var h := HashRun(src, i + 1);
    if StartsRaw(alnum, src, i) && FindCloser(src, i + 2 + h, h).Some? {
      RawLiteralFound(alnum, src, i);
    }
    forall m | RawLiteral(src, i, end, m)
      ensures LiteralAt(alnum, src, i) == Ok(Some(end))
    {
      RawLiteralEnds(alnum, src, i, end, m);
    }
  }

  lemma CharLiteralIff(src: string, i: nat, end: nat)
    requires i < |src| && src[i] == '\''
    ensures CharEnd(src, i) == Some(end) <==> CharLiteral(src, i, end)
  {
    if i + 2 < |src| && src[i + 1] == '\\' && CharLiteral(src, i, end) {
      var at := NextTick(src, i + 3);
      assert at.Some? && at.value == end - 1;
    }
  }

  /** A literal starts at `i` and ends at `end` exactly when one of the three forms is written there; a
      raw string counts only where its `r` is not the tail of an identifier. */
  lemma LiteralIff(alnum: char -> bool, src: string, i: nat, end: nat)
    requires i < |src|
    ensures LiteralAt(alnum, src, i) == Ok(Some(end)) <==>
            || (exists units :: StringLiteral(src, i, end, units))
            || (!(i > 0 && IsIdent(alnum, src[i - 1])) && exists h :: RawLiteral(src, i, end, h))
            || CharLiteral(src, i, end)
  {
    hide StringEnd, FindCloser, CharEnd, StringText, HashRun;
    if src[i] == '"' {
      StringLiteralIff(src, i, end);
    } else if src[i] == '\'' {
      CharLiteralIff(src, i, end);
    } else if src[i] == 'r' && !(i > 0 && IsIdent(alnum, src[i - 1])) {
      RawLiteralIff(alnum, src, i, end);
    }
  }

  /** A raw string is read as one literal exactly when it has at most six hashes and no identifier
      character stands before its `r`; the `b` and `c` of byte and C strings are such characters. */
  lemma RawStringReadIff(alnum: char -> bool, src: string, i: nat, end: nat, h: nat)
    requires RawForm(src, i, end, h)
    ensures LiteralAt(alnum, src, i) == Ok(Some(end)) <==> h <= 6 && !(i > 0 && IsIdent(alnum, src[i - 1]))
  {
    hide LiteralAt, Closes, StringText, HashRun;
    LiteralIff(alnum, src, i, end);
    HashesAre(src, i + 1, h);
    assert h <= 6 ==> RawLiteral(src, i, end, h);
    forall m | RawLiteral(src, i, end, m)
      ensures m == h
    {
      HashesAre(src, i + 1, m);
    }
  }

  lemma EscapedQuote(alnum: char -> bool, src: string)
    requires |src| == 5 && src[2] == '"' && src[3] == '\\'
    ensures LiteralAt(alnum, src, 2) == Err(UnterminatedString(2))
  {
    assert StringEnd(src, 5).None?;
    assert StringEnd(src, 3).None?;
  }

  /** The byte string `br` with a lone backslash in it is read as a plain string that never ends. */
  lemma ByteStringIsMisread(alnum: char -> bool)
    requires alnum('b')
    ensures var src := "br\"\\\"";
            && RawForm(src, 1, |src|, 0)
            && LiteralAt(alnum, src, 1) == Ok(None) && LiteralAt(alnum, src, 2) == Err(UnterminatedString(2))
  {
    EscapedQuote(alnum, "br\"\\\"");
  }

  // ---------------------------------------------------------------- blanking

  /** Every character but a newline becomes a space. */
  function Blank(s: string): (r: string)
    ensures |r| == |s| && forall k :: 0 <= k < |s| ==> r[k] == BlankChar(s[k])
  {
    seq(|s|, k requires 0 <= k < |s| => BlankChar(s[k]))
  }

  function BlankChar(c: char): char {
    if c == '\n' then '\n' else ' '
  }

  /** What stands at `i`, up to `end`: a comment, or something that is kept. */
  datatype Piece = Piece(end: nat, comment: bool)

  function PieceAt(alnum: char -> bool, src: string, i: nat): (r: Result<Piece>)
    requires i < |src|
    ensures r.Ok? ==> i < r.value.end <= |src|
  {
    if PairAt(src, i, '/', '/') then Ok(Piece(LineEnd(src, i), true))
    else if PairAt(src, i, '/', '*') then Ok(Piece(BlockEnd(src, i + 2, 1), true))
    else
      match LiteralAt(alnum, src, i)
      case Err(e) => Err(e)
      case Ok(None) => Ok(Piece(i + 1, false))
      case Ok(Some(end)) => Ok(Piece(end, false))
  }

  function Image(src: string, i: nat, p: Piece): string
    requires i <= p.end <= |src|
  {
    if p.comment then Blank(src[i..p.end]) else src[i..p.end]
  }

  function Then(head: string, rest: Result<string>): Result<string> {
    match rest
    case Err(e) => Err(e)
    case Ok(tail) => Ok(head + tail)
  }

  /** `src[i..]` with its comments blanked, from a place where a piece starts. */
  function Blanked(alnum: char -> bool, src: string, i: nat): Result<string>
    requires i <= |src|
    decreases |src| - i, 1
  {
    if i == |src| then Ok("") else BlankedFrom(alnum, src, i, PieceAt(alnum, src, i))
  }

  function BlankedFrom(alnum: char -> bool, src: string, i: nat, piece: Result<Piece>): Result<string>
    requires i < |src| && (piece.Ok? ==> i < piece.value.end <= |src|)
    decreases |src| - i, 0
  {
    if piece.Err? then Err(piece.error)
    else Then(Image(src, i, piece.value), Blanked(alnum, src, piece.value.end))
  }

  method StripComments(alnum: char -> bool, src: string) returns (r: Result<string>)
    ensures r == Blanked(alnum, src, 0)
  {
    hide Blanked, LiteralAt, BlockEnd, StringEnd;
    var out := "";
    var i := 0;
    ThenNothing(Blanked(alnum, src, 0));
    while i < |src|
      invariant 0 <= i <= |src|
      invariant Then(out, Blanked(alnum, src, i)) == Blanked(alnum, src, 0)
    {
      BlankedStep(alnum, src, i);
      ghost var from := i;
      if PairAt(src, i, '/', '/') {
        var j := LineEnd(src, i);
        ThenTwice(out, Blank(src[i..j]), Blanked(alnum, src, j));
        out := out + seq(j - i, _ => ' ');
        SpacesAre(src[from..j]);
        i := j;
      } else if PairAt(src, i, '/', '*') {
        var j := SkipBlock(src, i + 2);
        ThenTwice(out, Blank(src[i..j]), Blanked(alnum, src, j));
        out := out + Blank(src[i..j]);
        i := j;
      } else {
        var literal := FindLiteral(alnum, src, i);
        if literal.Err? {
          return Err(literal.error);
        }
        var j := if literal.value.Some? then literal.value.value else i + 1;
        ThenTwice(out, src[i..j], Blanked(alnum, src, j));
        out := out + src[i..j];
        i := j;
      }
    }
    BlankedEnd(alnum, src);
    assert out + "" == out;
    return Ok(out);
  }

  lemma ThenNothing(r: Result<string>)
    ensures Then("", r) == r
  {
    assert r.Ok? ==> "" + r.value == r.value;
  }

  lemma ThenTwice(a: string, b: string, r: Result<string>)
    ensures Then(a, Then(b, r)) == Then(a + b, r)
  {
    assert r.Ok? ==> a + (b + r.value) == (a + b) + r.value;
  }

  lemma SpacesAre(s: string)
    requires forall k :: 0 <= k < |s| ==> s[k] != '\n'
    ensures Blank(s) == seq(|s|, _ => ' ')
  {
  }

  lemma BlankedStep(alnum: char -> bool, src: string, i: nat)
    requires i < |src|
    ensures Blanked(alnum, src, i) == BlankedFrom(alnum, src, i, PieceAt(alnum, src, i))
  {
    hide PieceAt;
  }

  lemma BlankedEnd(alnum: char -> bool, src: string)
    ensures Blanked(alnum, src, |src|) == Ok("")
  {
  }
}

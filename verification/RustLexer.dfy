/** `check-unwrap.py`, `strip_noncode`: removing comments and literals from Rust source, line by
    line. The scanner jumps ahead inside a line; it is proved to do what an automaton reading one
    character at a time does. `alnum` stands for Python's `str.isalnum`. */
module RustLexer {
  import opened Options
  import opened RustQuotes

  /** What is open at the end of a line, as the source carries it: a kind and a count. */
  datatype Kind = CODE | STR | RAW | BLOCK
  datatype Carried = Carried(kind: Kind, n: nat)

  const START := Carried(CODE, 0)

  /** Only a raw string and a block comment carry a count, and an open comment is nested at least once. */
  predicate Valid(c: Carried) {
    match c.kind
    case CODE => c.n == 0
    case STR => c.n == 0
    case RAW => true
    case BLOCK => c.n >= 1
  }

  // ---------------------------------------------------------------- raw strings

  /** How many `#` stand directly before index `q`. */
  function HashesBefore(line: string, q: nat): (n: nat)
    requires q <= |line|
    ensures n <= q && (forall k :: q - n <= k < q ==> line[k] == '#') && (n < q ==> line[q - n - 1] != '#')
  {
    if q > 0 && line[q - 1] == '#' then 1 + HashesBefore(line, q - 1) else 0
  }

  /** Where the literal prefix ending in `r` at index `r` starts: one earlier after a `b` or a `c`. */
  function PrefixStart(line: string, r: nat): (j: nat)
    requires r < |line|
    ensures j <= r
  {
    if r > 0 && (line[r - 1] == 'b' || line[r - 1] == 'c') then r - 1 else r
  }

  /** The number of hashes of the raw string that the quote at `q` opens, if it opens one. */
  function RawHashes(alnum: char -> bool, line: string, q: nat): Option<nat>
    requires q <= |line|
  {
    var n := HashesBefore(line, q);
    var j := q - n;
    if j == 0 || line[j - 1] != 'r' then None
    else
      var start := PrefixStart(line, j - 1);
      if start > 0 && IsIdent(alnum, line[start - 1]) then None else Some(n)
  }

  method CountHashes(alnum: char -> bool, line: string, q: nat) returns (h: Option<nat>)
    requires q <= |line|
    ensures h == RawHashes(alnum, line, q)
  {
    var j, n := q, 0;
    while j > 0 && line[j - 1] == '#'
      invariant 0 <= j <= q && n == q - j
      invariant HashesBefore(line, q) == n + HashesBefore(line, j)
    {
      j := j - 1;
      n := n + 1;
    }
    if j == 0 || line[j - 1] != 'r' {
      return None;
    }
    j := j - 1;
    if j > 0 && (line[j - 1] == 'b' || line[j - 1] == 'c') {
      j := j - 1;
    }
    if j > 0 && IsIdent(alnum, line[j - 1]) {
      return None;
    }
    return Some(n);
  }

  /** `line[start..q]` is `r`, `br` or `cr` and then `n` hashes. */
  ghost predicate RawPrefix(line: string, start: nat, q: nat, n: nat)
    requires q <= |line|
  {
    && start + 1 + n <= q && q <= start + 2 + n
    && (forall k :: q - n <= k < q ==> line[k] == '#')
    && line[q - n - 1] == 'r'
    && (start + 2 + n == q ==> line[start] == 'b' || line[start] == 'c')
  }

  /** A quote opens a raw string with `n` hashes exactly when `r`, `br` or `cr` and `n` hashes stand
      before it and are not the tail of a longer identifier. */
  lemma RawHashesIff(alnum: char -> bool, line: string, q: nat, n: nat)
    requires q <= |line| && alnum('b') && alnum('c')
    ensures RawHashes(alnum, line, q) == Some(n) <==>
            exists start: nat :: RawPrefix(line, start, q, n) && (start == 0 || !IsIdent(alnum, line[start - 1]))
  {
    if RawHashes(alnum, line, q) == Some(n) {
      var start := PrefixStart(line, q - n - 1);
      assert RawPrefix(line, start, q, n);
    }
    if start: nat :| RawPrefix(line, start, q, n) && (start == 0 || !IsIdent(alnum, line[start - 1])) {
      HashesAre(line, q, n);
      assert PrefixStart(line, q - n - 1) == start;
    }
  }

  lemma {:induction false} HashesAre(line: string, q: nat, n: nat)
    requires n < q <= |line| && line[q - n - 1] != '#'
    requires forall k :: q - n <= k < q ==> line[k] == '#'
    ensures HashesBefore(line, q) == n
  {
    if n > 0 {
      HashesAre(line, q - 1, n - 1);
    }
  }

  // ---------------------------------------------------------------- the automaton

  /** The states of the one-character lexer. All but the plain `Code`, `Str`, `Raw` and `Block`
      live inside one line. */
  datatype State =
    | Code
    | Slash                          // a `/` not yet known to be a division
    | Tick                           // a `'` not yet known to be a lifetime
    | TickOne                        // a `'` and the character after it
    | CharBody | CharEscape          // inside an escaped character literal
    | Comment                        // to the end of the line
    | Str | StrEscape
    | Raw(n: nat)
    | RawClose(n: nat, k: nat)       // a quote and `k` of the `n` hashes that would close it
    | Block(depth: nat)
    | BlockStar(depth: nat) | BlockSlash(depth: nat)

  datatype Move = Move(kept: string, state: State)

  /** One character of code. */
  function CodeMove(alnum: char -> bool, line: string, i: nat): Move
    requires i < |line|
  {
    if line[i] == '/' then Move("", Slash)
    else if line[i] == '\'' then Move("", Tick)
    else if line[i] == '"' then
      match RawHashes(alnum, line, i)
      case None => Move("", Str)
      case Some(n) => Move("", Raw(n))
    else Move([line[i]], Code)
  }

  /** A character after a `/`. */
  function SlashMove(alnum: char -> bool, line: string, i: nat): Move
    requires i < |line|
  {
    if line[i] == '/' then Move("", Comment)
    else if line[i] == '*' then Move("", Block(1))
    else After("/", CodeMove(alnum, line, i))
  }

  /** A character after a `'`. */
  function TickMove(c: char): Move {
    if c == '\\' then Move("", CharEscape) else Move("", TickOne)
  }

  function After(kept: string, m: Move): Move {
    Move(kept + m.kept, m.state)
  }

  /** A character that comes two after a `'`: another `'` closes a character literal; otherwise the
      first was a lifetime's, and the character between is read as code. */
  function TickOneMove(alnum: char -> bool, line: string, i: nat): Move
    requires 0 < i < |line|
  {
    if line[i] == '\'' then Move("", Code)
    else
      var between := CodeMove(alnum, line, i - 1);
      After("'" + between.kept, SimpleMove(alnum, line, i, between.state))
  }

  /** The states in which the automaton can be after one character of code. */
  function SimpleMove(alnum: char -> bool, line: string, i: nat, s: State): Move
    requires i < |line|
  {
    match s
    case Code => CodeMove(alnum, line, i)
    case Slash => SlashMove(alnum, line, i)
    case Tick => TickMove(line[i])
    case Str => Move("", StrMove(line[i]))
    case Raw(n) => Move("", RawMove(n, line[i]))
    case _ => Move("", s)
  }

  function StrMove(c: char): State {
    if c == '\\' then StrEscape else if c == '"' then Code else Str
  }

  function RawMove(n: nat, c: char): State {
    if c != '"' then Raw(n) else if n == 0 then Code else RawClose(n, 0)
  }

  function RawCloseMove(n: nat, k: nat, c: char): State {
    if c != '#' then RawMove(n, c) else if k + 1 >= n then Code else RawClose(n, k + 1)
  }

  function BlockMove(depth: nat, c: char): State {
    if c == '*' then BlockStar(depth) else if c == '/' then BlockSlash(depth) else Block(depth)
  }

  /** The automaton, one character. */
  function Step(alnum: char -> bool, line: string, i: nat, s: State): Move
    requires i < |line|
  {
    match s
    case TickOne => if i == 0 then Move("", s) else TickOneMove(alnum, line, i)
    case CharBody => Move("", if line[i] == '\\' then CharEscape else if line[i] == '\'' then Code else CharBody)
    case CharEscape => Move("", CharBody)
    case Comment => Move("", Comment)
    case StrEscape => Move("", Str)
    case RawClose(n, k) => Move("", RawCloseMove(n, k, line[i]))
    case Block(depth) => Move("", BlockMove(depth, line[i]))
    case BlockStar(depth) =>
      Move("", if line[i] != '/' then BlockMove(depth, line[i]) else if depth <= 1 then Code else Block(depth - 1))
    case BlockSlash(depth) =>
      Move("", if line[i] != '*' then BlockMove(depth, line[i]) else Block(depth + 1))
    case _ => SimpleMove(alnum, line, i, s)
  }

  datatype Outcome = Outcome(kept: string, next: Carried)

  function Before(kept: string, o: Outcome): Outcome {
    Outcome(kept + o.kept, o.next)
  }

  /** What the end of a line makes of a state: a pending `/` or `'` was code, everything that lives
      inside one line ends. */
  function SimpleEnd(s: State): Outcome {
    match s
    case Slash => Outcome("/", START)
    case Tick => Outcome("'", START)
    case Str => Outcome("", Carried(STR, 0))
    case StrEscape => Outcome("", Carried(STR, 0))
    case Raw(n) => Outcome("", Carried(RAW, n))
    case RawClose(n, _) => Outcome("", Carried(RAW, n))
    case Block(depth) => Outcome("", Carried(BLOCK, depth))
    case BlockStar(depth) => Outcome("", Carried(BLOCK, depth))
    case BlockSlash(depth) => Outcome("", Carried(BLOCK, depth))
    case _ => Outcome("", START)
  }

  function End(alnum: char -> bool, line: string, s: State): Outcome {
    if s.TickOne? && line != [] then
      var last := CodeMove(alnum, line, |line| - 1);
      Before("'" + last.kept, SimpleEnd(last.state))
    else
      SimpleEnd(s)
  }

  /** The automaton over `line[i..]`. */
  function Run(alnum: char -> bool, line: string, i: nat, s: State): Outcome
    requires i <= |line|
    decreases |line| - i
  {
    if i == |line| then End(alnum, line, s)
    else
      var m := Step(alnum, line, i, s);
      Before(m.kept, Run(alnum, line, i + 1, m.state))
  }

  /** The automaton's state for a carried one. */
  function Resume(c: Carried): State {
    match c.kind
    case CODE => Code
    case STR => Str
    case RAW => Raw(c.n)
    case BLOCK => Block(c.n)
  }

  /** One line, read one character at a time. */
  function Strip(alnum: char -> bool, line: string, c: Carried): Outcome {
    Run(alnum, line, 0, Resume(c))
  }
}

/** Blanking comments, stated on the tokens of the source: what is a comment, a literal or neither is
    said of the characters that stand there. */
module CommentTokens {
  import opened Options
  import opened RustQuotes
  import opened NestedText
  import opened Comments
  import opened CommentTheorems

  datatype Kind = LineComment | BlockComment | Literal | Other
  datatype Token = Token(kind: Kind, end: nat)

  // ---------------------------------------------------------------- one token

  /** Two slashes and what follows them up to the next newline or the end. */
  predicate LineCommentAt(src: string, i: nat, end: nat) {
    && PairAt(src, i, '/', '/') && i < end <= |src|
    && (forall k :: i <= k < end ==> src[k] != '\n') && (end < |src| ==> src[end] == '\n')
  }

  /** A slash and a star and what follows them up to their own closing or the end. */
  ghost predicate BlockCommentAt(src: string, i: nat, end: nat) {
    exists parts, after :: ReadsAs(src, i, parts, after) && end == EndBefore(src, after)
  }

  /** `r`, `h` hashes and a quote, with no identifier character before them. */
  predicate RawStartsAt(alnum: char -> bool, src: string, i: nat, h: nat) {
    && h <= 6 && i + 1 + h < |src| && src[i] == 'r' && src[i + 1 + h] == '"'
    && (forall k :: i < k <= i + h ==> src[k] == '#')
    && !(i > 0 && IsIdent(alnum, src[i - 1]))
  }

  ghost predicate RawStarts(alnum: char -> bool, src: string, i: nat) {
    exists h: nat :: RawStartsAt(alnum, src, i, h)
  }

  /** A string, raw string or character literal stands from `i` to `end`. */
  ghost predicate LiteralIs(alnum: char -> bool, src: string, i: nat, end: nat) {
    || (exists units :: StringLiteral(src, i, end, units))
    || (RawStarts(alnum, src, i) && exists h: nat :: RawForm(src, i, end, h))
    || CharLiteral(src, i, end)
  }

  /** Nothing but this one character: no comment, no quote, no raw string and no character literal starts here. */
  ghost predicate OtherAt(alnum: char -> bool, src: string, i: nat) {
    && i < |src| && !PairAt(src, i, '/', '/') && !PairAt(src, i, '/', '*')
    && src[i] != '"' && !RawStarts(alnum, src, i) && forall end: nat :: !CharLiteral(src, i, end)
  }

  ghost predicate TokenAt(alnum: char -> bool, src: string, i: nat, t: Token) {
    match t.kind
    case LineComment => LineCommentAt(src, i, t.end)
    case BlockComment => BlockCommentAt(src, i, t.end)
    case Literal => LiteralIs(alnum, src, i, t.end)
    case Other => OtherAt(alnum, src, i) && t.end == i + 1
  }

  predicate IsComment(t: Token) {
    t.kind.LineComment? || t.kind.BlockComment?
  }

  /** A string or a raw string starts here and is never closed. */
  ghost predicate UnclosedAt(alnum: char -> bool, src: string, i: nat, e: Error) {
    match e
    case UnterminatedString(at) =>
      at == i < |src| && src[i] == '"' && forall end: nat, units :: !StringLiteral(src, i, end, units)
    case UnterminatedRawString(at) =>
      at == i && RawStarts(alnum, src, i) && forall end: nat, h: nat :: !RawForm(src, i, end, h)
  }

  lemma RawStartsIff(alnum: char -> bool, src: string, i: nat)
    requires i < |src|
    ensures StartsRaw(alnum, src, i) <==> RawStarts(alnum, src, i)
    ensures forall h: nat :: RawStartsAt(alnum, src, i, h) ==> h == HashRun(src, i + 1)
  {
    hide HashRun;
    if StartsRaw(alnum, src, i) {
      assert RawStartsAt(alnum, src, i, HashRun(src, i + 1));
    }
    forall h: nat | RawStartsAt(alnum, src, i, h)
      ensures h == HashRun(src, i + 1)
    {
      HashesAre(src, i + 1, h);
    }
  }

  lemma RawLiteralIs(alnum: char -> bool, src: string, i: nat, end: nat)
    requires i < |src|
    ensures (RawStarts(alnum, src, i) && exists h: nat :: RawForm(src, i, end, h)) <==>
            (!(i > 0 && IsIdent(alnum, src[i - 1])) && exists h: nat :: RawLiteral(src, i, end, h))
  {
    hide Closes;
    if !(i > 0 && IsIdent(alnum, src[i - 1])) {
      if h: nat :| RawLiteral(src, i, end, h) {
        assert RawStartsAt(alnum, src, i, h);
      }
    }
    if RawStarts(alnum, src, i) {
      var m: nat :| RawStartsAt(alnum, src, i, m);
      if h: nat :| RawForm(src, i, end, h) {
        HashesAre(src, i + 1, h);
        HashesAre(src, i + 1, m);
        assert RawLiteral(src, i, end, h);
      }
    }
  }

  lemma LiteralIsIff(alnum: char -> bool, src: string, i: nat, end: nat)
    requires i < |src|
    ensures LiteralAt(alnum, src, i) == Ok(Some(end)) <==> LiteralIs(alnum, src, i, end)
  {
    hide LiteralAt, StringLiteral, RawLiteral, RawForm, CharLiteral, RawStarts;
    LiteralIff(alnum, src, i, end);
    RawLiteralIs(alnum, src, i, end);
  }

  lemma NoLiteralIff(alnum: char -> bool, src: string, i: nat)
    requires i < |src|
    ensures LiteralAt(alnum, src, i) == Ok(None) <==>
            src[i] != '"' && !RawStarts(alnum, src, i) && forall end: nat :: !CharLiteral(src, i, end)
  {
    hide StringEnd, FindCloser, StartsRaw, CharEnd, RawStarts, CharLiteral, HashRun;
    RawStartsIff(alnum, src, i);
    if src[i] == '\'' {
      forall end: nat
        ensures CharEnd(src, i) == Some(end) <==> CharLiteral(src, i, end)
      {
        CharLiteralIff(src, i, end);
      }
    } else {
      NoTickNoChar(src, i);
    }
    TickIsNoRaw(alnum, src, i);
  }

  lemma NoTickNoChar(src: string, i: nat)
    requires i < |src| && src[i] != '\''
    ensures forall end: nat :: !CharLiteral(src, i, end)
  {
  }

  lemma TickIsNoRaw(alnum: char -> bool, src: string, i: nat)
    requires i < |src|
    ensures RawStarts(alnum, src, i) ==> src[i] == 'r'
  {
  }

  lemma UnclosedString(src: string, i: nat)
    requires i < |src| && src[i] == '"'
    ensures StringEnd(src, i + 1).None? <==> forall end: nat, units :: !StringLiteral(src, i, end, units)
  {
    hide StringEnd, StringLiteral;
    if StringEnd(src, i + 1).Some? {
      StringLiteralIff(src, i, StringEnd(src, i + 1).value);
    } else {
      forall end: nat, units
        ensures !StringLiteral(src, i, end, units)
      {
        StringLiteralIff(src, i, end);
      }
    }
  }

  lemma UnclosedRaw(alnum: char -> bool, src: string, i: nat)
    requires i < |src| && RawStarts(alnum, src, i)
    ensures LiteralAt(alnum, src, i) == Err(UnterminatedRawString(i)) || LiteralAt(alnum, src, i).Ok?
    ensures LiteralAt(alnum, src, i).Err? <==> forall end: nat, h: nat :: !RawForm(src, i, end, h)
  {
    hide StringEnd, FindCloser, StartsRaw, CharEnd, RawStarts, RawForm, StringLiteral, CharLiteral, HashRun;
    RawStartsIff(alnum, src, i);
    TickIsNoRaw(alnum, src, i);
    NoTickNoChar(src, i);
    NoQuoteNoString(src, i);
    if LiteralAt(alnum, src, i).Ok? {
      LiteralIsIff(alnum, src, i, LiteralAt(alnum, src, i).value.value);
    } else {
      forall end: nat, h: nat
        ensures !RawForm(src, i, end, h)
      {
        LiteralIsIff(alnum, src, i, end);
      }
    }
  }

  lemma UnclosedIff(alnum: char -> bool, src: string, i: nat, e: Error)
    requires i < |src|
    ensures LiteralAt(alnum, src, i) == Err(e) <==> UnclosedAt(alnum, src, i, e)
  {
    hide StringEnd, FindCloser, StartsRaw, CharEnd, RawStarts, StringLiteral, HashRun, RawForm;
    RawStartsIff(alnum, src, i);
    TickIsNoRaw(alnum, src, i);
    if src[i] == '"' {
      UnclosedString(src, i);
    } else if RawStarts(alnum, src, i) {
      UnclosedRaw(alnum, src, i);
    }
  }

  lemma NoQuoteNoString(src: string, i: nat)
    requires i < |src| && src[i] != '"'
    ensures forall end: nat, units :: !StringLiteral(src, i, end, units)
  {
  }

  lemma LineCommentIff(src: string, i: nat, end: nat)
    requires PairAt(src, i, '/', '/')
    ensures LineEnd(src, i) == end <==> LineCommentAt(src, i, end)
  {
  }

  lemma SlashIsNoLiteral(alnum: char -> bool, src: string, i: nat, end: nat)
    requires i < |src| && src[i] == '/'
    ensures !LiteralIs(alnum, src, i, end) && forall e :: !UnclosedAt(alnum, src, i, e)
  {
    NoQuoteNoString(src, i);
    NoTickNoChar(src, i);
    TickIsNoRaw(alnum, src, i);
  }

  /** What stands at `i`, as one piece: exactly the token that the characters make. */
  lemma PieceIff(alnum: char -> bool, src: string, i: nat, end: nat, comment: bool)
    requires i < |src|
    ensures PieceAt(alnum, src, i) == Ok(Piece(end, comment)) <==>
            exists kind :: TokenAt(alnum, src, i, Token(kind, end)) && IsComment(Token(kind, end)) == comment
  {
    hide LiteralAt, LineEnd, BlockEnd, LiteralIs, BlockCommentAt, LineCommentAt, CharLiteral, RawStarts, ReadsAs;
    var line, block := Token(LineComment, end), Token(BlockComment, end);
    var literal, other := Token(Literal, end), Token(Other, end);
    LiteralIsIff(alnum, src, i, end);
    NoLiteralIff(alnum, src, i);
    NoBlock(src, i, end);
    NoLine(src, i, end);
    assert TokenAt(alnum, src, i, line) <==> LineCommentAt(src, i, end);
    assert TokenAt(alnum, src, i, block) <==> BlockCommentAt(src, i, end);
    assert TokenAt(alnum, src, i, literal) <==> LiteralIs(alnum, src, i, end);
    assert TokenAt(alnum, src, i, other) <==> OtherAt(alnum, src, i) && end == i + 1;
    if PairAt(src, i, '/', '/') {
      SlashIsNoLiteral(alnum, src, i, end);
      LineCommentIff(src, i, end);
    } else if PairAt(src, i, '/', '*') {
      SlashIsNoLiteral(alnum, src, i, end);
      BlockCommentIff(alnum, src, i, end);
      BlockIs(src, i, end);
    }
  }

  lemma BlockIs(src: string, i: nat, end: nat)
    ensures BlockCommentAt(src, i, end) <==>
            exists parts, after :: ReadsAs(src, i, parts, after) && end == EndBefore(src, after)
  {
  }

  lemma NoBlock(src: string, i: nat, end: nat)
    ensures !PairAt(src, i, '/', '*') ==> !BlockCommentAt(src, i, end)
  {
  }

  lemma NoLine(src: string, i: nat, end: nat)
    ensures !PairAt(src, i, '/', '/') ==> !LineCommentAt(src, i, end)
  {
  }

  lemma PieceFailsIff(alnum: char -> bool, src: string, i: nat, e: Error)
    requires i < |src|
    ensures PieceAt(alnum, src, i) == Err(e) <==> UnclosedAt(alnum, src, i, e)
  {
    hide LiteralAt, LineEnd, BlockEnd, UnclosedAt;
    UnclosedIff(alnum, src, i, e);
    if src[i] == '/' {
      SlashIsNoLiteral(alnum, src, i, 0);
    }
  }

  // ---------------------------------------------------------------- the whole source

  /** The tokens follow one another from `i` to `to`. */
  ghost predicate Tiles(alnum: char -> bool, src: string, i: nat, tokens: seq<Token>, to: nat)
    decreases |tokens|
  {
    if tokens == [] then i == to
    else
      i < tokens[0].end <= |src| && TokenAt(alnum, src, i, tokens[0]) &&
      Tiles(alnum, src, tokens[0].end, tokens[1..], to)
  }

  /** The source from `i` on with its comment tokens blank. */
  function Painted(src: string, i: nat, tokens: seq<Token>): string
    decreases |tokens|
  {
    if tokens == [] || !(i < tokens[0].end <= |src|) then ""
    else
      var text := src[i..tokens[0].end];
      (if IsComment(tokens[0]) then Blank(text) else text) + Painted(src, tokens[0].end, tokens[1..])
  }

  lemma {:induction false} TilesAreBlanked(alnum: char -> bool, src: string, i: nat, tokens: seq<Token>)
    requires i <= |src| && Tiles(alnum, src, i, tokens, |src|)
    ensures Blanked(alnum, src, i) == Ok(Painted(src, i, tokens))
    decreases |tokens|
  {
    hide Blanked, PieceAt, TokenAt;
    if tokens == [] {
      BlankedEnd(alnum, src);
    } else {
      var t := tokens[0];
      PieceIff(alnum, src, i, t.end, IsComment(t));
      assert t == Token(t.kind, t.end);
      BlankedStep(alnum, src, i);
      TilesAreBlanked(alnum, src, t.end, tokens[1..]);
    }
  }

  lemma {:induction false} BlankedIsTiled(alnum: char -> bool, src: string, i: nat) returns (tokens: seq<Token>)
    requires i <= |src| && Blanked(alnum, src, i).Ok?
    ensures Tiles(alnum, src, i, tokens, |src|)
    decreases |src| - i
  {
    hide Blanked, PieceAt, TokenAt;
    if i == |src| {
      tokens := [];
    } else {
      Peel(alnum, src, i);
      var piece := PieceAt(alnum, src, i).value;
      PieceIff(alnum, src, i, piece.end, piece.comment);
      var kind :| TokenAt(alnum, src, i, Token(kind, piece.end));
      var more := BlankedIsTiled(alnum, src, piece.end);
      tokens := [Token(kind, piece.end)] + more;
      assert tokens[1..] == more;
    }
  }

  /** Blanking succeeds exactly when the source is tokens one after another, and its result is then the
      source with exactly the comment tokens blank. */
  lemma BlankedIff(alnum: char -> bool, src: string, out: string)
    ensures Blanked(alnum, src, 0) == Ok(out) <==>
            exists tokens :: Tiles(alnum, src, 0, tokens, |src|) && out == Painted(src, 0, tokens)
  {
    hide Blanked, Tiles, Painted;
    if Blanked(alnum, src, 0).Ok? {
      var tokens := BlankedIsTiled(alnum, src, 0);
      TilesAreBlanked(alnum, src, 0, tokens);
    }
    forall tokens | Tiles(alnum, src, 0, tokens, |src|)
      ensures Blanked(alnum, src, 0) == Ok(Painted(src, 0, tokens))
    {
      TilesAreBlanked(alnum, src, 0, tokens);
    }
  }

  lemma {:induction false} FailureAt(alnum: char -> bool, src: string, i: nat, tokens: seq<Token>, to: nat, e: Error)
    requires i <= |src| && to < |src| && Tiles(alnum, src, i, tokens, to) && UnclosedAt(alnum, src, to, e)
    ensures Blanked(alnum, src, i) == Err(e)
    decreases |tokens|
  {
    hide Blanked, PieceAt, TokenAt, UnclosedAt;
    if tokens == [] {
      PieceFailsIff(alnum, src, i, e);
      BlankedStep(alnum, src, i);
    } else {
      var t := tokens[0];
      PieceIff(alnum, src, i, t.end, IsComment(t));
      assert t == Token(t.kind, t.end);
      BlankedStep(alnum, src, i);
      FailureAt(alnum, src, t.end, tokens[1..], to, e);
    }
  }

  lemma {:induction false} FindFailure(alnum: char -> bool, src: string, i: nat) returns (tokens: seq<Token>, to: nat)
    requires i <= |src| && Blanked(alnum, src, i).Err?
    ensures to < |src| && Tiles(alnum, src, i, tokens, to) && UnclosedAt(alnum, src, to, Blanked(alnum, src, i).error)
    decreases |src| - i
  {
    hide Blanked, PieceAt, TokenAt, UnclosedAt;
    BlankedEnd(alnum, src);
    assert i < |src|;
    BlankedStep(alnum, src, i);
    var piece := PieceAt(alnum, src, i);
    if piece.Err? {
      tokens, to := [], i;
      PieceFailsIff(alnum, src, i, piece.error);
    } else {
      PieceIff(alnum, src, i, piece.value.end, piece.value.comment);
      var kind :| TokenAt(alnum, src, i, Token(kind, piece.value.end));
      var more;
      more, to := FindFailure(alnum, src, piece.value.end);
      tokens := [Token(kind, piece.value.end)] + more;
      assert tokens[1..] == more;
    }
  }

  /** Blanking fails exactly where the tokens come to a string that is never closed. */
  lemma BlankingFailsIff(alnum: char -> bool, src: string, e: Error)
    ensures Blanked(alnum, src, 0) == Err(e) <==>
            exists tokens, to: nat :: to < |src| && Tiles(alnum, src, 0, tokens, to) && UnclosedAt(alnum, src, to, e)
  {
    hide Blanked, Tiles, UnclosedAt;
    if Blanked(alnum, src, 0).Err? {
      var tokens, to := FindFailure(alnum, src, 0);
    }
    forall tokens, to: nat | to < |src| && Tiles(alnum, src, 0, tokens, to) && UnclosedAt(alnum, src, to, e)
      ensures Blanked(alnum, src, 0) == Err(e)
    {
      FailureAt(alnum, src, 0, tokens, to, e);
    }
  }
}

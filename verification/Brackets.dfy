/** `flag-since.py`, `balanced_end` and `split_top`: bracket groups and comma-separated items of Rust
    source, with string and character literals stepped over. */
module Brackets {
  import opened Options
  import opened Text
  import C = Comments

  predicate IsOpen(c: char) {
    c == '(' || c == '[' || c == '{'
  }

  predicate IsClose(c: char) {
    c == ')' || c == ']' || c == '}'
  }

  function CloserOf(c: char): char
    requires IsOpen(c)
  {
    if c == '(' then ')' else if c == '[' then ']' else '}'
  }

  datatype Error = BadLiteral(e: C.Error) | Unbalanced(at: nat)
  datatype Result<T> = Ok(value: T) | Err(error: Error)

  // ---------------------------------------------------------------- balanced_end

  function Top(stack: seq<char>): char
    requires stack != []
  {
    stack[|stack| - 1]
  }

  function Popped(stack: seq<char>): seq<char>
    requires stack != []
  {
    stack[..|stack| - 1]
  }

  /** The end of the bracket group, from `j` on with the closers in `stack` awaited. */
  function Search(alnum: char -> bool, src: string, from: nat, j: nat, stack: seq<char>): Result<nat>
    decreases |src| - j
  {
    if j >= |src| then Err(Unbalanced(from))
    else
      var literal := C.LiteralAt(alnum, src, j);
      if literal.Err? then Err(BadLiteral(literal.error))
      else if literal.value.Some? then Search(alnum, src, from, literal.value.value, stack)
      else if IsOpen(src[j]) then Search(alnum, src, from, j + 1, stack + [CloserOf(src[j])])
      else if stack != [] && src[j] == Top(stack) then
        if |stack| == 1 then Ok(j + 1) else Search(alnum, src, from, j + 1, Popped(stack))
      else Search(alnum, src, from, j + 1, stack)
  }

  method BalancedEnd(alnum: char -> bool, src: string, i: nat) returns (r: Result<nat>)
    ensures r == Search(alnum, src, i, i, [])
  {
    hide C.LiteralAt;
    var stack: seq<char> := [];
    var j := i;
    while j < |src|
      invariant Search(alnum, src, i, j, stack) == Search(alnum, src, i, i, [])
    {
      var literal := C.FindLiteral(alnum, src, j);
      if literal.Err? {
        return Err(BadLiteral(literal.error));
      }
      if literal.value.Some? {
        j := literal.value.value;
        continue;
      }
      if IsOpen(src[j]) {
        stack := stack + [CloserOf(src[j])];
      } else if stack != [] && src[j] == Top(stack) {
        if |stack| == 1 {
          return Ok(j + 1);
        }
        stack := Popped(stack);
      }
      j := j + 1;
    }
    return Err(Unbalanced(i));
  }

  // ---------------------------------------------------------------- nested groups

  /** What the inside of a group is made of: literals and single characters, each up to `end`, and
      groups that close at `close`. */
  datatype Piece = Token(end: nat) | Group(inside: seq<Piece>, close: nat)

  /** A literal, or a character that is neither an opening bracket nor the closer awaited. */
  predicate TokenAt(alnum: char -> bool, src: string, i: nat, closer: char, end: nat)
    requires i < |src|
  {
    var literal := C.LiteralAt(alnum, src, i);
    && literal.Ok?
    && (if literal.value.Some? then end == literal.value.value
        else end == i + 1 && !IsOpen(src[i]) && src[i] != closer)
  }

  predicate BareAt(alnum: char -> bool, src: string, i: nat, c: char) {
    i < |src| && src[i] == c && C.LiteralAt(alnum, src, i) == C.Ok(None)
  }

  /** The source from `i` to `j` is these pieces, inside a group that `closer` closes. */
  ghost predicate Spans(alnum: char -> bool, src: string, i: nat, closer: char, pieces: seq<Piece>, j: nat)
    decreases pieces
  {
    if pieces == [] then i == j
    else
      i < |src| &&
      match pieces[0]
      case Token(end) => TokenAt(alnum, src, i, closer, end) && Spans(alnum, src, end, closer, pieces[1..], j)
      case Group(inside, close) =>
        && IsOpen(src[i]) && BareAt(alnum, src, i, src[i])
        && Spans(alnum, src, i + 1, CloserOf(src[i]), inside, close)
        && BareAt(alnum, src, close, CloserOf(src[i]))
        && Spans(alnum, src, close + 1, closer, pieces[1..], j)
  }

  lemma SearchStep(alnum: char -> bool, src: string, from: nat, j: nat, stack: seq<char>)
    requires j < |src| && C.LiteralAt(alnum, src, j).Ok?
    ensures var literal := C.LiteralAt(alnum, src, j).value;
            Search(alnum, src, from, j, stack) ==
            if literal.Some? then Search(alnum, src, from, literal.value, stack)
            else if IsOpen(src[j]) then Search(alnum, src, from, j + 1, stack + [CloserOf(src[j])])
            else if stack != [] && src[j] == Top(stack) then
              if |stack| == 1 then Ok(j + 1) else Search(alnum, src, from, j + 1, Popped(stack))
            else Search(alnum, src, from, j + 1, stack)
  {
    hide C.LiteralAt;
  }

  lemma ClosersClose(c: char)
    requires IsOpen(c)
    ensures IsClose(CloserOf(c)) && !IsOpen(CloserOf(c))
  {
  }

  /** Whole pieces leave the stack as it was. */
  lemma {:induction false} PiecesPass(
    alnum: char -> bool, src: string, from: nat, i: nat, stack: seq<char>, pieces: seq<Piece>, j: nat)
    requires stack != [] && Spans(alnum, src, i, Top(stack), pieces, j)
    ensures Search(alnum, src, from, i, stack) == Search(alnum, src, from, j, stack)
    decreases pieces
  {
    hide C.LiteralAt, Search;
    if pieces != [] {
      SearchStep(alnum, src, from, i, stack);
      match pieces[0] {
        case Token(end) =>
          PiecesPass(alnum, src, from, end, stack, pieces[1..], j);
        case Group(inside, close) =>
          var c := CloserOf(src[i]);
          ClosersClose(src[i]);
          assert Top(stack + [c]) == c && Popped(stack + [c]) == stack;
          PiecesPass(alnum, src, from, i + 1, stack + [c], inside, close);
          SearchStep(alnum, src, from, close, stack + [c]);
          PiecesPass(alnum, src, from, close + 1, stack, pieces[1..], j);
      }
    }
  }

  /** Whenever the search succeeds, what it went over is whole pieces and the closer awaited last. */
  lemma {:induction false} SearchIsPieces(alnum: char -> bool, src: string, from: nat, j: nat, stack: seq<char>)
    returns (pieces: seq<Piece>, k: nat)
    requires stack != [] && !IsOpen(Top(stack)) && Search(alnum, src, from, j, stack).Ok?
    ensures Spans(alnum, src, j, Top(stack), pieces, k) && BareAt(alnum, src, k, Top(stack)) && j <= k
    ensures Search(alnum, src, from, j, stack) ==
            if |stack| == 1 then Ok(k + 1) else Search(alnum, src, from, k + 1, Popped(stack))
    decreases |src| - j
  {
    hide C.LiteralAt;
    var literal := C.LiteralAt(alnum, src, j).value;
    if literal.Some? {
      pieces, k := SearchIsPieces(alnum, src, from, literal.value, stack);
      pieces := AddToken(alnum, src, j, Top(stack), literal.value, pieces, k);
    } else if IsOpen(src[j]) {
      var c := CloserOf(src[j]);
      ClosersClose(src[j]);
      assert Top(stack + [c]) == c && Popped(stack + [c]) == stack;
      var inside, close := SearchIsPieces(alnum, src, from, j + 1, stack + [c]);
      var rest;
      rest, k := SearchIsPieces(alnum, src, from, close + 1, stack);
      pieces := AddGroup(alnum, src, j, Top(stack), inside, close, rest, k);
    } else if src[j] == Top(stack) {
      pieces, k := [], j;
    } else {
      pieces, k := SearchIsPieces(alnum, src, from, j + 1, stack);
      pieces := AddToken(alnum, src, j, Top(stack), j + 1, pieces, k);
    }
  }

  lemma AddToken(alnum: char -> bool, src: string, i: nat, closer: char, end: nat, rest: seq<Piece>, j: nat)
    returns (pieces: seq<Piece>)
    requires i < |src| && TokenAt(alnum, src, i, closer, end) && Spans(alnum, src, end, closer, rest, j)
    ensures Spans(alnum, src, i, closer, pieces, j)
  {
    hide C.LiteralAt;
    pieces := [Token(end)] + rest;
    assert pieces[1..] == rest;
  }

  lemma AddGroup(
    alnum: char -> bool, src: string, i: nat, closer: char, inside: seq<Piece>, close: nat, rest: seq<Piece>, j: nat)
    returns (pieces: seq<Piece>)
    requires i < |src| && IsOpen(src[i]) && BareAt(alnum, src, i, src[i])
    requires Spans(alnum, src, i + 1, CloserOf(src[i]), inside, close) && BareAt(alnum, src, close, CloserOf(src[i]))
    requires Spans(alnum, src, close + 1, closer, rest, j)
    ensures Spans(alnum, src, i, closer, pieces, j)
  {
    hide C.LiteralAt;
    pieces := [Group(inside, close)] + rest;
    assert pieces[1..] == rest;
  }

  /** The bracket at `i`, these pieces, and the bracket that closes it, up to `end`. */
  ghost predicate IsGroup(alnum: char -> bool, src: string, i: nat, pieces: seq<Piece>, end: nat)
    requires i < |src| && IsOpen(src[i])
  {
    && end > 0
    && Spans(alnum, src, i + 1, CloserOf(src[i]), pieces, end - 1)
    && BareAt(alnum, src, end - 1, CloserOf(src[i]))
  }

  /** From an opening bracket, `end` is the answer exactly when the source up to `end` is one group: inside
      nested groups, literals and other characters, then the bracket that closes this one. A closer of
      another kind than the innermost open bracket is such a character, so `(])` is one group. */
  lemma BalancedEndIff(alnum: char -> bool, src: string, i: nat, end: nat)
    requires i < |src| && IsOpen(src[i])
    ensures Search(alnum, src, i, i, []) == Ok(end) <==>
            exists pieces :: IsGroup(alnum, src, i, pieces, end)
  {
    hide C.LiteralAt, Search, Spans;
    var c := CloserOf(src[i]);
    BracketIsBare(alnum, src, i);
    SearchStep(alnum, src, i, i, []);
    ClosersClose(src[i]);
    assert [] + [c] == [c];
    if Search(alnum, src, i, i, []) == Ok(end) {
      var pieces, k := SearchIsPieces(alnum, src, i, i + 1, [c]);
      assert IsGroup(alnum, src, i, pieces, end);
    }
    if pieces :| IsGroup(alnum, src, i, pieces, end) {
      PiecesPass(alnum, src, i, i + 1, [c], pieces, end - 1);
      SearchStep(alnum, src, i, end - 1, [c]);
    }
  }

  lemma BracketIsBare(alnum: char -> bool, src: string, i: nat)
    requires i < |src| && IsOpen(src[i])
    ensures C.LiteralAt(alnum, src, i) == C.Ok(None)
  {
  }

  // ---------------------------------------------------------------- split_top

  function Prepend(item: string, r: Result<seq<string>>): Result<seq<string>> {
    match r
    case Err(_) => r
    case Ok(items) => Ok([item] + items)
  }

  /** `body[start..]` cut at the commas outside any bracket or literal, read from `j` on. */
  function Items(alnum: char -> bool, body: string, j: nat, depth: int, start: nat): Result<seq<string>>
    requires start <= j <= |body|
    decreases |body| - j
  {
    if j == |body| then Ok([body[start..]])
    else
      var literal := C.LiteralAt(alnum, body, j);
      if literal.Err? then Err(BadLiteral(literal.error))
      else if literal.value.Some? then Items(alnum, body, literal.value.value, depth, start)
      else if IsOpen(body[j]) then Items(alnum, body, j + 1, depth + 1, start)
      else if IsClose(body[j]) then Items(alnum, body, j + 1, depth - 1, start)
      else if body[j] == ',' && depth == 0 then Prepend(body[start..j], Items(alnum, body, j + 1, depth, j + 1))
      else Items(alnum, body, j + 1, depth, start)
  }

  /** The items stripped, without those that are then empty. */
  function Trimmed(items: seq<string>): seq<string> {
    if items == [] then []
    else (if Strip(items[0]) == [] then [] else [Strip(items[0])]) + Trimmed(items[1..])
  }

  function SplitTop(alnum: char -> bool, body: string): Result<seq<string>> {
    match Items(alnum, body, 0, 0, 0)
    case Err(e) => Err(e)
    case Ok(items) => Ok(Trimmed(items))
  }

  function Joined(before: seq<string>, r: Result<seq<string>>): Result<seq<string>> {
    match r
    case Err(_) => r
    case Ok(items) => Ok(before + items)
  }

  method SplitItems(alnum: char -> bool, body: string) returns (r: Result<seq<string>>)
    ensures r == SplitTop(alnum, body)
  {
    hide C.LiteralAt, Items, Trimmed;
    var items: seq<string>, depth, start, j := [], 0, 0, 0;
    JoinedNothing(Items(alnum, body, 0, 0, 0));
    while j < |body|
      invariant 0 <= start <= j <= |body|
      invariant Joined(items, Items(alnum, body, j, depth, start)) == Items(alnum, body, 0, 0, 0)
    {
      var literal := C.FindLiteral(alnum, body, j);
      ItemsStep(alnum, body, j, depth, start);
      if literal.Err? {
        return Err(BadLiteral(literal.error));
      }
      if literal.value.Some? {
        j := literal.value.value;
        continue;
      }
      if IsOpen(body[j]) {
        depth := depth + 1;
      } else if IsClose(body[j]) {
        depth := depth - 1;
      } else if body[j] == ',' && depth == 0 {
        JoinedPrepend(items, body[start..j], Items(alnum, body, j + 1, depth, j + 1));
        items := items + [body[start..j]];
        start := j + 1;
      }
      j := j + 1;
    }
    ItemsEnd(alnum, body, depth, start);
    items := items + [body[start..]];
    return Ok(Trimmed(items));
  }

  lemma JoinedNothing(r: Result<seq<string>>)
    ensures Joined([], r) == r
  {
    assert r.Ok? ==> [] + r.value == r.value;
  }

  lemma JoinedPrepend(before: seq<string>, item: string, r: Result<seq<string>>)
    ensures Joined(before, Prepend(item, r)) == Joined(before + [item], r)
  {
    assert r.Ok? ==> before + ([item] + r.value) == (before + [item]) + r.value;
  }

  lemma ItemsStep(alnum: char -> bool, body: string, j: nat, depth: int, start: nat)
    requires start <= j < |body|
    ensures var literal := C.LiteralAt(alnum, body, j);
            Items(alnum, body, j, depth, start) ==
            if literal.Err? then Err(BadLiteral(literal.error))
            else if literal.value.Some? then Items(alnum, body, literal.value.value, depth, start)
            else if IsOpen(body[j]) then Items(alnum, body, j + 1, depth + 1, start)
            else if IsClose(body[j]) then Items(alnum, body, j + 1, depth - 1, start)
            else if body[j] == ',' && depth == 0 then Prepend(body[start..j], Items(alnum, body, j + 1, depth, j + 1))
            else Items(alnum, body, j + 1, depth, start)
  {
    hide C.LiteralAt;
  }

  lemma ItemsEnd(alnum: char -> bool, body: string, depth: int, start: nat)
    requires start <= |body|
    ensures Items(alnum, body, |body|, depth, start) == Ok([body[start..]])
  {
  }

  /** Nothing is lost in cutting: the items joined with commas are the body again. */
  lemma {:induction false} ItemsJoin(alnum: char -> bool, body: string, j: nat, depth: int, start: nat)
    requires start <= j <= |body| && Items(alnum, body, j, depth, start).Ok?
    ensures Items(alnum, body, j, depth, start).value != []
    ensures Join(",", Items(alnum, body, j, depth, start).value) == body[start..]
    decreases |body| - j
  {
    hide C.LiteralAt, Items;
    if j == |body| {
      ItemsEnd(alnum, body, depth, start);
    } else {
      ItemsStep(alnum, body, j, depth, start);
      var literal := C.LiteralAt(alnum, body, j).value;
      if literal.Some? {
        ItemsJoin(alnum, body, literal.value, depth, start);
      } else if IsOpen(body[j]) {
        ItemsJoin(alnum, body, j + 1, depth + 1, start);
      } else if IsClose(body[j]) {
        ItemsJoin(alnum, body, j + 1, depth - 1, start);
      } else if body[j] == ',' && depth == 0 {
        ItemsJoin(alnum, body, j + 1, depth, j + 1);
        var rest := Items(alnum, body, j + 1, depth, j + 1).value;
        assert ([body[start..j]] + rest)[1..] == rest;
        assert body[start..j] + "," + body[j + 1..] == body[start..];
      } else {
        ItemsJoin(alnum, body, j + 1, depth, start);
      }
    }
  }

  /** The source from `i` to `j` is these pieces, every bracket in it properly closed and, at the top,
      no comma. */
  ghost predicate Tidy(alnum: char -> bool, src: string, i: nat, pieces: seq<Piece>, j: nat, top: bool)
    decreases pieces
  {
    if pieces == [] then i == j
    else
      i < |src| &&
      match pieces[0]
      case Token(end) => TidyToken(alnum, src, i, end, top) && Tidy(alnum, src, end, pieces[1..], j, top)
      case Group(inside, close) =>
        && IsOpen(src[i])
        && Tidy(alnum, src, i + 1, inside, close, false)
        && BareAt(alnum, src, close, CloserOf(src[i]))
        && Tidy(alnum, src, close + 1, pieces[1..], j, top)
  }

  predicate TidyToken(alnum: char -> bool, src: string, i: nat, end: nat, top: bool)
    requires i < |src|
  {
    var literal := C.LiteralAt(alnum, src, i);
    && literal.Ok?
    && (if literal.value.Some? then end == literal.value.value
        else end == i + 1 && !IsOpen(src[i]) && !IsClose(src[i]) && !(top && src[i] == ','))
  }

  lemma {:induction false} TidyEnds(alnum: char -> bool, src: string, i: nat, pieces: seq<Piece>, j: nat, top: bool)
    requires Tidy(alnum, src, i, pieces, j, top) && i <= |src|
    ensures i <= j <= |src|
    decreases pieces
  {
    hide C.LiteralAt;
    if pieces != [] {
      match pieces[0] {
        case Token(end) =>
          TidyEnds(alnum, src, end, pieces[1..], j, top);
        case Group(inside, close) =>
          TidyEnds(alnum, src, i + 1, inside, close, false);
          TidyEnds(alnum, src, close + 1, pieces[1..], j, top);
      }
    }
  }

  /** Tidy source is never cut, and leaves the depth as it was. */
  lemma {:induction false} TidyPasses(
    alnum: char -> bool, src: string, i: nat, pieces: seq<Piece>, j: nat, top: bool, depth: nat, start: nat)
    requires start <= i <= |src| && Tidy(alnum, src, i, pieces, j, top) && (depth == 0 ==> top)
    ensures i <= j <= |src| && Items(alnum, src, i, depth, start) == Items(alnum, src, j, depth, start)
    decreases pieces
  {
    hide C.LiteralAt, Items;
    TidyEnds(alnum, src, i, pieces, j, top);
    if pieces != [] {
      ItemsStep(alnum, src, i, depth, start);
      match pieces[0] {
        case Token(end) =>
          TidyPasses(alnum, src, end, pieces[1..], j, top, depth, start);
        case Group(inside, close) =>
          BracketIsBare(alnum, src, i);
          ClosersClose(src[i]);
          TidyPasses(alnum, src, i + 1, inside, close, false, depth + 1, start);
          ItemsStep(alnum, src, close, depth + 1, start);
          TidyPasses(alnum, src, close + 1, pieces[1..], j, top, depth, start);
      }
    }
  }

  /** An item: its pieces and where it ends. */
  datatype Item = Item(pieces: seq<Piece>, end: nat)

  /** The source from `i` on is tidy items with a comma between each two. */
  ghost predicate Listed(alnum: char -> bool, src: string, i: nat, items: seq<Item>)
    decreases |items|
  {
    && items != [] && i <= |src|
    && Tidy(alnum, src, i, items[0].pieces, items[0].end, true)
    && (if |items| == 1 then items[0].end == |src|
        else BareAt(alnum, src, items[0].end, ',') && Listed(alnum, src, items[0].end + 1, items[1..]))
  }

  ghost function Texts(src: string, i: nat, items: seq<Item>): seq<string>
    requires i <= |src|
    decreases |items|
  {
    if items == [] || !(i <= items[0].end < |src|) then [src[i..]]
    else [src[i..items[0].end]] + Texts(src, items[0].end + 1, items[1..])
  }

  /** Items whose brackets are properly closed come apart exactly at the commas between them, whatever
      commas stand inside their brackets and literals. */
  lemma {:induction false} ListedComesApart(alnum: char -> bool, src: string, i: nat, items: seq<Item>)
    requires Listed(alnum, src, i, items)
    ensures Items(alnum, src, i, 0, i) == Ok(Texts(src, i, items)) && |Texts(src, i, items)| == |items|
    decreases |items|
  {
    hide C.LiteralAt, Items, Tidy;
    var end := items[0].end;
    TidyPasses(alnum, src, i, items[0].pieces, end, true, 0, i);
    if |items| == 1 {
      ItemsEnd(alnum, src, 0, i);
    } else {
      ItemsStep(alnum, src, end, 0, i);
      ListedComesApart(alnum, src, end + 1, items[1..]);
    }
  }

  /** The trimmed items come from these places, in order, and every item that is not blank is at one. */
  predicate AreKept(items: seq<string>, trimmed: seq<string>, kept: seq<nat>) {
    && |kept| == |trimmed|
    && (forall k :: 0 <= k < |kept| ==> kept[k] < |items| && trimmed[k] == Strip(items[kept[k]]) != [])
    && (forall j, k :: 0 <= j < k < |kept| ==> kept[j] < kept[k])
    && forall i: nat :: i < |items| && !AllSpace(items[i]) ==> i in kept
  }

  function Moved(kept: seq<nat>): (moved: seq<nat>)
    ensures |moved| == |kept| && forall k :: 0 <= k < |kept| ==> moved[k] == kept[k] + 1
  {
    seq(|kept|, k requires 0 <= k < |kept| => kept[k] + 1)
  }

  lemma KeptMoves(items: seq<string>, trimmed: seq<string>, kept: seq<nat>)
    requires items != [] && AreKept(items[1..], trimmed, kept)
    ensures forall k :: 0 <= k < |kept| ==>
            0 < Moved(kept)[k] < |items| && trimmed[k] == Strip(items[Moved(kept)[k]]) != []
    ensures forall i: nat :: 0 < i < |items| && !AllSpace(items[i]) ==> i in Moved(kept)
  {
    hide Strip, AllSpace, Moved;
    forall k | 0 <= k < |kept|
      ensures items[Moved(kept)[k]] == items[1..][kept[k]]
    {
    }
    forall i: nat | 0 < i < |items| && !AllSpace(items[i])
      ensures i in Moved(kept)
    {
      assert items[i] == items[1..][i - 1];
      var k :| 0 <= k < |kept| && kept[k] == i - 1;
      assert Moved(kept)[k] == i;
    }
  }

  lemma KeptWithout(items: seq<string>, trimmed: seq<string>, kept: seq<nat>)
    requires items != [] && AllSpace(items[0]) && AreKept(items[1..], trimmed, kept)
    ensures AreKept(items, trimmed, Moved(kept))
  {
    hide Strip, AllSpace, Moved;
    KeptMoves(items, trimmed, kept);
  }

  lemma KeptWith(items: seq<string>, trimmed: seq<string>, kept: seq<nat>)
    requires items != [] && Strip(items[0]) != [] && AreKept(items[1..], trimmed, kept)
    ensures AreKept(items, [Strip(items[0])] + trimmed, [0] + Moved(kept))
  {
    hide Strip, AllSpace, Moved;
    KeptMoves(items, trimmed, kept);
    var all := [0] + Moved(kept);
    assert all[0] == 0 && forall k :: 0 < k < |all| ==> all[k] == Moved(kept)[k - 1];
    forall i: nat | i < |items| && !AllSpace(items[i])
      ensures i in all
    {
      assert i == 0 || i in Moved(kept);
    }
  }

  /** What is returned are the items that are not blank, in order, without the white space around them. */
  lemma {:induction false} TrimmedIs(items: seq<string>) returns (kept: seq<nat>)
    ensures AreKept(items, Trimmed(items), kept)
  {
    hide Strip, AllSpace, Moved, AreKept;
    if items == [] {
      kept := [];
      NoneKept();
    } else {
      StripEmptyIff(items[0]);
      var more := TrimmedIs(items[1..]);
      if Strip(items[0]) == [] {
        KeptWithout(items, Trimmed(items[1..]), more);
        kept := Moved(more);
        assert [] + Trimmed(items[1..]) == Trimmed(items[1..]);
      } else {
        KeptWith(items, Trimmed(items[1..]), more);
        kept := [0] + Moved(more);
      }
    }
  }

  lemma NoneKept()
    ensures AreKept([], [], [])
  {
  }
}

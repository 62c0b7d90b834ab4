/** What blanking the comments of Rust source guarantees. */
module CommentTheorems {
  import opened Options
  import opened RustQuotes
  import opened NestedText
  import opened Comments

  // ---------------------------------------------------------------- position by position

  /** Position `k` lies in a comment, reading piece after piece from `i`. */
  predicate InComment(alnum: char -> bool, src: string, i: nat, k: nat)
    requires i <= |src|
    decreases |src| - i
  {
    i <= k < |src| && PieceAt(alnum, src, i).Ok? &&
    var p := PieceAt(alnum, src, i).value;
    if k < p.end then p.comment else InComment(alnum, src, p.end, k)
  }

  lemma Peel(alnum: char -> bool, src: string, i: nat)
    requires i < |src| && Blanked(alnum, src, i).Ok?
    ensures var piece := PieceAt(alnum, src, i);
            piece.Ok? && Blanked(alnum, src, piece.value.end).Ok? &&
            Blanked(alnum, src, i).value == Image(src, i, piece.value) + Blanked(alnum, src, piece.value.end).value
  {
    hide PieceAt, Image;
  }

  /** The result is as long as the source, the same at every position outside comments, and blank,
      but for its newlines, inside them. */
  lemma {:induction false} BlankedPointwise(alnum: char -> bool, src: string, i: nat)
    requires i <= |src| && Blanked(alnum, src, i).Ok?
    ensures var out := Blanked(alnum, src, i).value;
            && |out| == |src| - i
            && forall k :: i <= k < |src| ==>
                 out[k - i] == if InComment(alnum, src, i, k) then BlankChar(src[k]) else src[k]
    decreases |src| - i
  {
    hide Blanked, PieceAt, BlankChar;
    if i == |src| {
      BlankedEnd(alnum, src);
    } else {
      Peel(alnum, src, i);
      var p := PieceAt(alnum, src, i).value;
      BlankedPointwise(alnum, src, p.end);
      var head, tail := Image(src, i, p), Blanked(alnum, src, p.end).value;
      forall k | i <= k < |src|
        ensures (head + tail)[k - i] == if InComment(alnum, src, i, k) then BlankChar(src[k]) else src[k]
      {
        if k < p.end {
          assert (head + tail)[k - i] == head[k - i];
        } else {
          assert (head + tail)[k - i] == tail[k - p.end];
        }
      }
    }
  }

  /** The whole source: same length, newlines where they were, comments blank, the rest untouched. */
  lemma BlankingKeepsPositions(alnum: char -> bool, src: string)
    requires Blanked(alnum, src, 0).Ok?
    ensures var out := Blanked(alnum, src, 0).value;
            && |out| == |src|
            && (forall k :: 0 <= k < |src| ==> (out[k] == '\n' <==> src[k] == '\n'))
            && (forall k :: 0 <= k < |src| && InComment(alnum, src, 0, k) ==> out[k] == '\n' || out[k] == ' ')
            && (forall k :: 0 <= k < |src| && !InComment(alnum, src, 0, k) ==> out[k] == src[k])
  {
    hide Blanked, InComment;
    BlankedPointwise(alnum, src, 0);
    var out := Blanked(alnum, src, 0).value;
    forall k | 0 <= k < |src|
      ensures out[k] == if InComment(alnum, src, 0, k) then BlankChar(src[k]) else src[k]
    {
      assert out[k - 0] == out[k];
    }
  }

  // ---------------------------------------------------------------- literals are read the same again

  lemma {:induction false} SameStringEnd(src: string, out: string, j: nat, end: nat)
    requires |out| == |src| && StringEnd(src, j) == Some(end)
    requires forall k :: j <= k < end ==> out[k] == src[k]
    ensures StringEnd(out, j) == Some(end)
    decreases |src| - j
  {
    if src[j] == '\\' {
      SameStringEnd(src, out, j + 2, end);
    } else if src[j] != '"' {
      SameStringEnd(src, out, j + 1, end);
    }
  }

  lemma SameCloser(src: string, out: string, j: nat, n: nat, at: nat)
    requires |out| == |src| && FindCloser(src, j, n) == Some(at)
    requires forall k :: j <= k < at + 1 + n ==> out[k] == src[k]
    ensures FindCloser(out, j, n) == Some(at)
  {
    forall k | j <= k <= at
      ensures Closes(out, k, n) <==> Closes(src, k, n)
    {
      assert forall x :: k < x <= k + n ==> out[x] == src[x];
    }
    hide Closes;
    CloserIs(out, j, n, at);
  }

  lemma SameChar(src: string, out: string, i: nat, end: nat)
    requires i < |src| == |out| && CharEnd(src, i) == Some(end)
    requires forall k :: i <= k < end ==> out[k] == src[k]
    ensures CharEnd(out, i) == Some(end)
  {
    if src[i + 1] == '\\' {
      assert NextTick(src, i + 3) == Some(end - 1);
      assert out[end - 1] == '\'';
      assert NextTick(out, i + 3).Some?;
      var k := NextTick(out, i + 3).value;
      assert k <= end - 1;
      assert src[k] == out[k];
    }
  }

  /** Before an `r` stands an identifier character in one text exactly if it does in the other. */
  ghost predicate SameEdge(alnum: char -> bool, src: string, out: string, i: nat)
    requires |out| == |src|
  {
    0 < i < |src| && src[i] == 'r' ==> (IsIdent(alnum, out[i - 1]) <==> IsIdent(alnum, src[i - 1]))
  }

  lemma SameLiteral(alnum: char -> bool, src: string, out: string, i: nat, end: nat)
    requires i < |src| == |out| && LiteralAt(alnum, src, i) == Ok(Some(end)) && SameEdge(alnum, src, out, i)
    requires forall k :: i <= k < end ==> out[k] == src[k]
    ensures LiteralAt(alnum, out, i) == Ok(Some(end))
  {
    hide StringEnd, FindCloser, HashRun, CharEnd, IsIdent;
    assert out[i] == src[i];
    if src[i] == '"' {
      SameStringEnd(src, out, i + 1, end);
    } else if StartsRaw(alnum, src, i) {
      var h := HashRun(src, i + 1);
      var at := FindCloser(src, i + 2 + h, h).value;
      HashesAre(out, i + 1, h);
      SameCloser(src, out, i + 2 + h, h, at);
    } else {
      SameChar(src, out, i, end);
    }
  }

  // ---------------------------------------------------------------- what is plain stays plain

  /** `out` keeps `src` up to blanking, from `i` on. */
  ghost predicate Kept(src: string, out: string, i: nat) {
    |out| == |src| && forall k :: i <= k < |src| ==> out[k] == src[k] || out[k] == BlankChar(src[k])
  }

  lemma BlankedIsKept(alnum: char -> bool, src: string, out: string, i: nat)
    requires i <= |src| == |out| && Blanked(alnum, src, i) == Ok(out[i..])
    ensures Kept(src, out, i)
  {
    hide Blanked, InComment, BlankChar;
    BlankedPointwise(alnum, src, i);
    forall k | i <= k < |src|
      ensures out[k] == src[k] || out[k] == BlankChar(src[k])
    {
      assert out[i..][k - i] == out[k];
    }
  }

  /** A piece that is kept is the same in the result, and the rest of the result is the rest's. */
  lemma PeelInto(alnum: char -> bool, src: string, out: string, i: nat)
    requires i < |src| == |out| && Blanked(alnum, src, i) == Ok(out[i..])
    ensures var piece := PieceAt(alnum, src, i);
            && piece.Ok?
            && Blanked(alnum, src, piece.value.end) == Ok(out[piece.value.end..])
            && out[i..piece.value.end] == Image(src, i, piece.value)
  {
    hide Blanked, PieceAt;
    Peel(alnum, src, i);
    var p := PieceAt(alnum, src, i).value;
    BlankedPointwise(alnum, src, p.end);
    var head, tail := Image(src, i, p), Blanked(alnum, src, p.end).value;
    assert out[i..] == head + tail;
    assert out[i..][..p.end - i] == out[i..p.end] == head;
    assert out[i..][p.end - i..] == out[p.end..] == tail;
  }

  /** Where a piece starts, the result has the same character unless a comment starts there. */
  lemma FirstKept(alnum: char -> bool, src: string, out: string, i: nat)
    requires i < |src| == |out| && Blanked(alnum, src, i) == Ok(out[i..])
    ensures out[i] == src[i] || (src[i] == '/' && out[i] == ' ')
  {
    hide Blanked, LiteralAt, LineEnd, BlockEnd;
    PeelInto(alnum, src, out, i);
    var p := PieceAt(alnum, src, i).value;
    assert out[i..p.end][0] == out[i];
  }

  lemma HashIsPlain(alnum: char -> bool, src: string, i: nat)
    requires i < |src| && src[i] == '#'
    ensures PieceAt(alnum, src, i) == Ok(Piece(i + 1, false))
  {
  }

  /** A run of hashes that starts where a piece does is read the same in the result. */
  lemma {:induction false} SameHashes(alnum: char -> bool, src: string, out: string, i: nat)
    requires i <= |src| == |out| && Blanked(alnum, src, i) == Ok(out[i..])
    ensures var h := HashRun(src, i);
            && HashRun(out, i) == h
            && (i + h < |src| ==> (out[i + h] == '"' <==> src[i + h] == '"'))
    decreases |src| - i
  {
    hide Blanked, PieceAt;
    if i < |src| {
      FirstKept(alnum, src, out, i);
      if src[i] == '#' {
        HashIsPlain(alnum, src, i);
        PeelInto(alnum, src, out, i);
        SameHashes(alnum, src, out, i + 1);
      }
    }
  }

  /** A `'` that starts no character literal still starts none. */
  lemma StillNoChar(src: string, out: string, i: nat)
    requires i < |src| && Kept(src, out, i) && CharEnd(src, i) == None
    requires i + 1 < |src| ==> out[i + 1] == src[i + 1] || (src[i + 1] == '/' && out[i + 1] == ' ')
    ensures CharEnd(out, i) == None
  {
    if i + 2 < |src| && src[i + 1] == '\\' && src[i + 2] != '\n' {
      assert NextTick(src, i + 3) == None;
      assert forall x :: i + 3 <= x < |out| ==> out[x] != '\'';
      assert NextTick(out, i + 3) == None;
    }
  }

  lemma StillPlain(alnum: char -> bool, src: string, out: string, i: nat)
    requires i < |src| == |out| && SameEdge(alnum, src, out, i)
    requires PieceAt(alnum, src, i) == Ok(Piece(i + 1, false)) && LiteralAt(alnum, src, i) == Ok(None)
    requires Blanked(alnum, src, i) == Ok(out[i..]) && Blanked(alnum, src, i + 1) == Ok(out[i + 1..])
    requires out[i] == src[i]
    ensures PieceAt(alnum, out, i) == Ok(Piece(i + 1, false))
  {
    hide Blanked, StringEnd, FindCloser, HashRun, CharEnd, IsIdent, LineEnd, BlockEnd;
    if i + 1 < |src| {
      FirstKept(alnum, src, out, i + 1);
    }
    if src[i] == 'r' {
      SameHashes(alnum, src, out, i + 1);
      assert StartsRaw(alnum, out, i) <==> StartsRaw(alnum, src, i);
    } else if src[i] == '\'' {
      BlankedIsKept(alnum, src, out, i);
      StillNoChar(src, out, i);
    }
  }

  // ---------------------------------------------------------------- fixpoint

  lemma BlankIsPlain(alnum: char -> bool, s: string, i: nat)
    requires i < |s| && (s[i] == ' ' || s[i] == '\n')
    ensures PieceAt(alnum, s, i) == Ok(Piece(i + 1, false))
  {
  }

  lemma {:induction false} BlanksStay(alnum: char -> bool, out: string, i: nat, j: nat)
    requires i <= j <= |out| && (forall k :: i <= k < j ==> out[k] == ' ' || out[k] == '\n')
    requires Blanked(alnum, out, j) == Ok(out[j..])
    ensures Blanked(alnum, out, i) == Ok(out[i..])
    decreases j - i
  {
    hide Blanked, PieceAt;
    if i < j {
      BlanksStay(alnum, out, i + 1, j);
      BlankIsPlain(alnum, out, i);
      KeptPiece(alnum, out, i, i + 1);
    }
  }

  lemma KeptPiece(alnum: char -> bool, out: string, i: nat, j: nat)
    requires i < j <= |out| && PieceAt(alnum, out, i) == Ok(Piece(j, false))
    requires Blanked(alnum, out, j) == Ok(out[j..])
    ensures Blanked(alnum, out, i) == Ok(out[i..])
  {
    hide Blanked, PieceAt;
    BlankedStep(alnum, out, i);
    assert out[i..j] + out[j..] == out[i..];
  }

  /** After any piece the edge is the same: a block comment ends in `/`, a line comment before a newline. */
  lemma EdgeAfter(alnum: char -> bool, src: string, out: string, i: nat)
    requires i < |src| == |out| && PieceAt(alnum, src, i).Ok?
    requires !alnum('/') && !alnum(' ')
    requires var p := PieceAt(alnum, src, i).value; out[i..p.end] == Image(src, i, p)
    ensures SameEdge(alnum, src, out, PieceAt(alnum, src, i).value.end)
  {
    hide LiteralAt, StringEnd;
    var p := PieceAt(alnum, src, i).value;
    assert out[i..p.end][p.end - 1 - i] == out[p.end - 1];
    assert src[i..p.end][p.end - 1 - i] == src[p.end - 1];
  }

  /** Blanking comments twice is blanking them once: from any place where a piece starts. */
  lemma {:induction false} FixpointFrom(alnum: char -> bool, src: string, out: string, i: nat)
    requires i <= |src| == |out| && Blanked(alnum, src, i) == Ok(out[i..]) && SameEdge(alnum, src, out, i)
    requires !alnum('/') && !alnum(' ')
    ensures Blanked(alnum, out, i) == Ok(out[i..])
    decreases |src| - i
  {
    hide Blanked, PieceAt, SameEdge, LiteralAt;
    if i == |src| {
      BlankedEnd(alnum, out);
      assert out[i..] == "";
    } else {
      PeelInto(alnum, src, out, i);
      var p := PieceAt(alnum, src, i).value;
      EdgeAfter(alnum, src, out, i);
      FixpointFrom(alnum, src, out, p.end);
      if p.comment {
        forall k | i <= k < p.end
          ensures out[k] == ' ' || out[k] == '\n'
        {
          assert out[i..p.end][k - i] == out[k];
        }
        BlanksStay(alnum, out, i, p.end);
      } else {
        KeptAgain(alnum, src, out, i);
        KeptPiece(alnum, out, i, p.end);
      }
    }
  }

  lemma KeptAgain(alnum: char -> bool, src: string, out: string, i: nat)
    requires i < |src| == |out| && SameEdge(alnum, src, out, i) && Blanked(alnum, src, i) == Ok(out[i..])
    requires PieceAt(alnum, src, i).Ok? && !PieceAt(alnum, src, i).value.comment
    requires var end := PieceAt(alnum, src, i).value.end;
             Blanked(alnum, src, end) == Ok(out[end..]) && out[i..end] == src[i..end]
    ensures PieceAt(alnum, out, i) == Ok(PieceAt(alnum, src, i).value)
  {
    hide Blanked, SameEdge, LineEnd, BlockEnd, LiteralAt;
    var end := PieceAt(alnum, src, i).value.end;
    assert forall k :: i <= k < end ==> out[k] == out[i..end][k - i] == src[i..end][k - i] == src[k];
    if LiteralAt(alnum, src, i).value.Some? {
      SameLiteral(alnum, src, out, i, end);
      LiteralStart(alnum, src, i);
    } else {
      StillPlain(alnum, src, out, i);
    }
  }

  lemma LiteralStart(alnum: char -> bool, src: string, i: nat)
    requires i < |src| && LiteralAt(alnum, src, i).Ok? && LiteralAt(alnum, src, i).value.Some?
    ensures src[i] != '/'
  {
  }

  /** Whenever blanking succeeds, its result has no comment left to blank and is left alone. */
  lemma BlankingIsFixpoint(alnum: char -> bool, src: string)
    requires Blanked(alnum, src, 0).Ok? && !alnum('/') && !alnum(' ')
    ensures Blanked(alnum, Blanked(alnum, src, 0).value, 0) == Blanked(alnum, src, 0)
  {
    hide Blanked;
    var out := Blanked(alnum, src, 0).value;
    BlankedPointwise(alnum, src, 0);
    assert out[0..] == out;
    FixpointFrom(alnum, src, out, 0);
  }

  // ---------------------------------------------------------------- nested comments

  lemma {:induction false} WordsPass(src: string, i: nat, j: nat, depth: nat)
    requires i <= j <= |src| && depth >= 1 && forall k :: i <= k < j ==> !DelimiterAt(src, k)
    ensures BlockEnd(src, i, depth) == BlockEnd(src, j, depth)
    decreases j - i
  {
    if i < j {
      assert !DelimiterAt(src, i);
      WordsPass(src, i + 1, j, depth);
    }
  }

  lemma PartPasses(src: string, i: nat, part: Part, depth: nat)
    requires PartAt(src, i, part) && depth >= 1 && depth + Value(part) >= 1
    ensures i + |Spelling(part)| <= |src|
    ensures BlockEnd(src, i, depth) == BlockEnd(src, i + |Spelling(part)|, depth + Value(part))
  {
    if part.Words? {
      hide BlockEnd;
      WordsPass(src, i, i + |part.text|, depth);
    }
  }

  lemma {:induction false} PartsPass(src: string, i: nat, parts: seq<Part>, after: string, depth: nat)
    requires StandsAt(src, i, parts, after) && StaysOpen(parts, depth)
    ensures i + |Written(parts)| <= |src| && depth + Net(parts) >= 1
    ensures BlockEnd(src, i, depth) == BlockEnd(src, i + |Written(parts)|, depth + Net(parts))
    decreases parts
  {
    hide BlockEnd, StaysOpen, Net, StandsAt, PartAt;
    StaysOpenNow(parts, depth);
    if parts == [] {
      NetOfNone();
      StandsWithin(src, i, parts, after);
    } else {
      FirstPart(src, i, parts, after);
      FirstOpen(parts, depth);
      PartPasses(src, i, parts[0], depth);
      PartsPass(src, i + |Spelling(parts[0])|, parts[1..], after, depth + Value(parts[0]));
    }
  }

  /** Where a comment ends whose text reads as `parts` and then `after`. */
  function EndBefore(src: string, after: string): int {
    if after == "" then |src| else |src| - |after| + 2
  }

  lemma SplitEnds(src: string, i: nat, depth: nat, parts: seq<Part>, after: string)
    requires i <= |src| && Splits(src[i..], depth, parts, after)
    ensures BlockEnd(src, i, depth) == EndBefore(src, after)
  {
    hide BlockEnd, StaysOpen, Net, Splits, StandsAt;
    SplitStands(src, i, depth, parts, after);
    PartsPass(src, i, parts, after, depth);
    AtEnd(src, depth + Net(parts));
    if after != "" {
      LastClosing(src, i + |Written(parts)|);
    }
  }

  lemma AtEnd(src: string, depth: nat)
    ensures BlockEnd(src, |src|, depth) == |src|
  {
  }

  lemma LastClosing(src: string, j: nat)
    requires PairAt(src, j, '*', '/')
    ensures BlockEnd(src, j, 1) == j + 2
  {
  }

  /** What follows the slash and star at `i` is these parts, up to the closing that leads `after`, or to the end. */
  ghost predicate ReadsAs(src: string, i: nat, parts: seq<Part>, after: string) {
    PairAt(src, i, '/', '*') && Splits(src[i + 2..], 1, parts, after)
  }

  /** A block comment is one piece to its own closing, whatever is nested in it: it ends where its text
      first has as many closings as openings, and at the end of the source if that never happens. */
  lemma BlockCommentIff(alnum: char -> bool, src: string, i: nat, end: nat)
    requires PairAt(src, i, '/', '*')
    ensures PieceAt(alnum, src, i) == Ok(Piece(end, true)) <==>
            exists parts, after :: ReadsAs(src, i, parts, after) && end == EndBefore(src, after)
  {
    hide BlockEnd, Splits;
    var parts, after := SplitExists(src[i + 2..], 1);
    SplitEnds(src, i + 2, 1, parts, after);
    assert ReadsAs(src, i, parts, after);
    forall p, a | ReadsAs(src, i, p, a)
      ensures EndBefore(src, a) == EndBefore(src, after)
    {
      SplitEnds(src, i + 2, 1, p, a);
    }
  }
}

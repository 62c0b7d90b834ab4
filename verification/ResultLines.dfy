/** How a line of test output is read, stated on how it is written: what counts as a color code, and where
    its fields end. */
module ResultLines {
  import opened Text
  import opened TestCount

  // ---------------------------------------------------------------- color codes

  /** The escape character, a bracket, digits and semicolons, and an `m`. */
  predicate IsCode(s: string) {
    && |s| >= 3 && s[0] == ESC && s[1] == '[' && s[|s| - 1] == 'm'
    && forall k :: 2 <= k < |s| - 1 ==> '0' <= s[k] <= '9' || s[k] == ';'
  }

  /** A piece of a line: a color code, or a character that is kept. */
  datatype Piece = Code(text: string) | Kept(c: char)

  function PieceText(p: Piece): string {
    match p
    case Code(text) => text
    case Kept(c) => [c]
  }

  function Spelled(pieces: seq<Piece>): string {
    if pieces == [] then "" else PieceText(pieces[0]) + Spelled(pieces[1..])
  }

  function KeptText(pieces: seq<Piece>): string {
    if pieces == [] then ""
    else (match pieces[0] case Code(_) => "" case Kept(c) => [c]) + KeptText(pieces[1..])
  }

  /** Every code is one, and no kept character starts one. */
  ghost predicate AreCut(pieces: seq<Piece>) {
    pieces == [] ||
    (AreCut(pieces[1..]) &&
     match pieces[0]
     case Code(text) => IsCode(text)
     case Kept(_) => forall n: nat :: n <= |Spelled(pieces)| ==> !IsCode(Spelled(pieces)[..n]))
  }

  lemma {:induction false} SgrIs(s: string)
    ensures forall k :: 0 <= k < SgrLength(s) ==> IsSgr(s[k])
    ensures SgrLength(s) < |s| ==> !IsSgr(s[SgrLength(s)])
  {
    if s != [] && IsSgr(s[0]) {
      SgrIs(s[1..]);
      assert forall k :: 0 < k < SgrLength(s) ==> s[k] == s[1..][k - 1];
    }
  }

  lemma CodeLength(s: string, n: nat)
    requires n <= |s|
    ensures IsCode(s[..n]) <==> n > 0 && AnsiLength(s) == n
  {
    hide SgrLength;
    if |s| >= 2 && s[0] == ESC && s[1] == '[' {
      var tail := s[2..];
      SgrIs(tail);
      var m := SgrLength(tail);
      assert forall k :: 0 <= k < |tail| ==> tail[k] == s[k + 2];
      if IsCode(s[..n]) {
        assert forall k :: 0 <= k < n - 3 ==> IsSgr(tail[k]);
        assert !IsSgr(tail[n - 3]);
      }
    }
  }

  lemma {:induction false} StripOfPieces(pieces: seq<Piece>)
    requires AreCut(pieces)
    ensures StripAnsi(Spelled(pieces)) == KeptText(pieces)
  {
    hide AnsiLength, IsCode;
    if pieces != [] {
      var s, first, rest := Spelled(pieces), PieceText(pieces[0]), Spelled(pieces[1..]);
      StripOfPieces(pieces[1..]);
      assert s == first + rest && s[..|first|] == first && s[|first|..] == rest;
      CodeLength(s, |first|);
      if pieces[0].Kept? {
        CodeLength(s, AnsiLength(s));
        assert !IsCode(s[..AnsiLength(s)]);
      } else {
        CodeIsLong(first);
      }
    }
  }

  lemma CodeIsLong(s: string)
    requires IsCode(s)
    ensures |s| >= 3
  {
  }

  lemma {:induction false} FindPieces(s: string) returns (pieces: seq<Piece>)
    ensures AreCut(pieces) && Spelled(pieces) == s
    decreases |s|
  {
    hide AnsiLength, IsCode;
    if s == [] {
      pieces := [];
    } else {
      var n := AnsiLength(s);
      var more;
      if n > 0 {
        CodeLength(s, n);
        more := FindPieces(s[n..]);
        pieces := [Code(s[..n])] + more;
        assert s == s[..n] + s[n..];
      } else {
        more := FindPieces(s[1..]);
        pieces := [Kept(s[0])] + more;
        assert s == [s[0]] + s[1..];
        forall k: nat | k <= |s|
          ensures !IsCode(s[..k])
        {
          CodeLength(s, k);
        }
      }
      assert pieces[1..] == more;
    }
  }

  /** Exactly the color codes are taken out of a line. */
  lemma StripAnsiIff(s: string, r: string)
    ensures StripAnsi(s) == r <==> exists pieces :: AreCut(pieces) && Spelled(pieces) == s && KeptText(pieces) == r
  {
    hide StripAnsi, AreCut, KeptText, Spelled;
    var pieces := FindPieces(s);
    StripOfPieces(pieces);
    forall other | AreCut(other) && Spelled(other) == s
      ensures KeptText(other) == StripAnsi(s)
    {
      StripOfPieces(other);
    }
  }

  // ---------------------------------------------------------------- fields

  predicate NoSeparator(s: string) {
    forall k :: 0 <= k < |s| ==> s[k] != ' ' && s[k] != ';'
  }

  predicate IsGap(s: string) {
    s != "" && forall k :: 0 <= k < |s| ==> s[k] == ' ' || s[k] == ';'
  }

  /** The fields with the gaps between them. */
  function Woven(fields: seq<string>, gaps: seq<string>): string
    requires |fields| == |gaps| + 1
  {
    if gaps == [] then fields[0] else fields[0] + gaps[0] + Woven(fields[1..], gaps[1..])
  }

  /** Fields without separators, a gap of one or more between each two, and none empty but the outer. */
  predicate AreFields(s: string, fields: seq<string>, gaps: seq<string>) {
    && |fields| == |gaps| + 1 && Woven(fields, gaps) == s
    && (forall k :: 0 <= k < |fields| ==> NoSeparator(fields[k]) && (0 < k < |gaps| ==> fields[k] != ""))
    && forall k :: 0 <= k < |gaps| ==> IsGap(gaps[k])
  }

  lemma GapLength(gap: string, rest: string)
    requires IsGap(gap) && (rest == "" || !IsSeparator(rest[0]))
    ensures SeparatorLength(gap + rest) == |gap|
  {
    hide SeparatorLength;
    var s := gap + rest;
    assert forall k :: 0 <= k < |gap| ==> s[k] == gap[k];
    assert rest != "" ==> s[|gap|] == rest[0];
  }

  lemma FieldEnds(field: string, rest: string)
    requires NoSeparator(field) && (rest == "" || IsSeparator(rest[0]))
    ensures FieldLength(field + rest) == |field|
  {
    hide FieldLength;
    var s := field + rest;
    assert forall k :: 0 <= k < |field| ==> s[k] == field[k];
    assert rest != "" ==> s[|field|] == rest[0];
  }

  lemma {:induction false} FieldsOfWoven(fields: seq<string>, gaps: seq<string>)
    requires |fields| == |gaps| + 1 && AreFields(Woven(fields, gaps), fields, gaps)
    ensures Fields(Woven(fields, gaps)) == fields
    decreases |gaps|
  {
    hide FieldLength, SeparatorLength;
    var s, f := Woven(fields, gaps), fields[0];
    if gaps == [] {
      FieldEnds(f, "");
      assert f + "" == f && fields == [f];
    } else {
      var g, rest := gaps[0], Woven(fields[1..], gaps[1..]);
      assert s == f + (g + rest);
      RestStarts(fields[1..], gaps[1..], |gaps| == 1);
      FieldEnds(f, g + rest);
      assert s[..|f|] == f && s[|f|..] == g + rest;
      GapLength(g, rest);
      assert s[|f| + |g|..] == rest;
      assert forall k :: 0 <= k < |fields[1..]| ==> fields[1..][k] == fields[k + 1];
      assert forall k :: 0 <= k < |gaps[1..]| ==> gaps[1..][k] == gaps[k + 1];
      FieldsOfWoven(fields[1..], gaps[1..]);
      assert fields == [f] + fields[1..];
    }
  }

  lemma RestStarts(fields: seq<string>, gaps: seq<string>, last: bool)
    requires |fields| == |gaps| + 1 && NoSeparator(fields[0]) && (last || fields[0] != "") && (last <==> gaps == [])
    ensures Woven(fields, gaps) == "" || !IsSeparator(Woven(fields, gaps)[0])
  {
  }

  lemma {:induction false} FindGaps(s: string) returns (gaps: seq<string>)
    ensures AreFields(s, Fields(s), gaps)
    ensures s != "" && !IsSeparator(s[0]) ==> Fields(s)[0] != ""
    decreases |s|
  {
    hide FieldLength, SeparatorLength, AreFields, IsGap;
    var n := FieldLength(s);
    if n == |s| {
      gaps := [];
      OneField(s);
    } else {
      var m := FirstGap(s);
      var more := FindGaps(s[n + m..]);
      gaps := [s[n..n + m]] + more;
      FieldsCons(s, n, m, more);
    }
  }

  lemma OneField(s: string)
    requires NoSeparator(s)
    ensures AreFields(s, [s], [])
  {
  }

  /** The gap after the first field, and that a field starts after it. */
  lemma FirstGap(s: string) returns (m: nat)
    requires FieldLength(s) < |s|
    ensures m > 0 && m == SeparatorLength(s[FieldLength(s)..]) && FieldLength(s) + m <= |s|
    ensures IsGap(s[FieldLength(s)..FieldLength(s) + m]) && NoSeparator(s[..FieldLength(s)])
    ensures FieldLength(s) + m < |s| ==> !IsSeparator(s[FieldLength(s) + m..][0])
  {
    hide FieldLength, SeparatorLength;
    var n := FieldLength(s);
    var tail := s[n..];
    m := SeparatorLength(tail);
    assert tail[0] == s[n];
    assert forall k :: 0 <= k < m ==> s[n..n + m][k] == tail[k];
    assert m < |tail| ==> tail[m] == s[n + m..][0];
  }

  lemma FieldsCons(s: string, n: nat, m: nat, more: seq<string>)
    requires n < n + m <= |s| && NoSeparator(s[..n]) && IsGap(s[n..n + m])
    requires AreFields(s[n + m..], Fields(s[n + m..]), more)
    requires n + m < |s| ==> Fields(s[n + m..])[0] != ""
    requires Fields(s) == [s[..n]] + Fields(s[n + m..])
    ensures AreFields(s, Fields(s), [s[n..n + m]] + more)
  {
    hide Fields, NoSeparator, IsGap;
    var fields, gaps, rest := Fields(s), [s[n..n + m]] + more, Fields(s[n + m..]);
    assert fields[1..] == rest && gaps[1..] == more;
    assert s == s[..n] + s[n..n + m] + s[n + m..];
    forall k | 0 < k < |fields|
      ensures fields[k] == rest[k - 1]
    {
    }
    assert n + m == |s| ==> |more| == 0 by {
      if |more| > 0 && n + m == |s| {
        NothingWoven(rest, more);
      }
    }
  }

  lemma NothingWoven(fields: seq<string>, gaps: seq<string>)
    requires |fields| == |gaps| + 1 && gaps != [] && IsGap(gaps[0])
    ensures Woven(fields, gaps) != ""
  {
  }

  /** A line comes apart at exactly its runs of spaces and semicolons. */
  lemma FieldsIff(s: string, fields: seq<string>)
    ensures Fields(s) == fields <==> exists gaps :: AreFields(s, fields, gaps)
  {
    hide Fields, AreFields;
    var gaps := FindGaps(s);
    forall other | AreFields(s, fields, other)
      ensures Fields(s) == fields
    {
      WovenIs(s, fields, other);
      FieldsOfWoven(fields, other);
    }
  }

  lemma WovenIs(s: string, fields: seq<string>, gaps: seq<string>)
    requires AreFields(s, fields, gaps)
    ensures |fields| == |gaps| + 1 && Woven(fields, gaps) == s
  {
  }

  /** A line is a result with `n` passed tests exactly when, without its color codes, it starts with
      `test result`, its third field is `ok.` and its fourth is the number. */
  lemma PassedIff(raw: string, n: nat)
    ensures ReadLine(raw) == Reading.Passed(n) <==>
            var line := StripAnsi(raw);
            && (exists rest :: line == "test result" + rest)
            && |Fields(line)| >= 4 && Fields(line)[2] == "ok."
            && IsDigits(Fields(line)[3]) && n == ReadNat(Fields(line)[3])
    ensures ReadLine(raw) == Skip <==> !exists rest :: StripAnsi(raw) == "test result" + rest
  {
    hide Fields, StripAnsi, ReadNat, IsDigits;
    var line := StripAnsi(raw);
    if StartsWith(line, RESULT_PREFIX) {
      assert line == "test result" + line[11..];
    }
    forall rest | line == "test result" + rest
      ensures StartsWith(line, RESULT_PREFIX)
    {
      assert line[..11] == "test result";
    }
  }
}

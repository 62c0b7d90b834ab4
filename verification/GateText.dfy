/** What the reader of feature conditions makes of any text at all, well formed or not. */
module GateText {
  import opened Text
  import opened FeatureGates

  /** One mention of a feature, with its name. */
  predicate IsMention(t: string, name: string) {
    && name != "" && t == "feature = \"" + name + "\""
    && forall k :: 0 <= k < |name| ==> 'a' <= name[k] <= 'z' || '0' <= name[k] <= '9' || name[k] in "_-"
  }

  /** A piece of a text: a mention, or a character between mentions. */
  datatype Piece = Mention(text: string, name: string) | Other(c: char)

  function Spelled(pieces: seq<Piece>): string {
    if pieces == [] then ""
    else (if pieces[0].Mention? then pieces[0].text else [pieces[0].c]) + Spelled(pieces[1..])
  }

  function Mentioned(pieces: seq<Piece>): seq<string> {
    if pieces == [] then []
    else (if pieces[0].Mention? then [pieces[0].name] else []) + Mentioned(pieces[1..])
  }

  /** A mention starts here. */
  ghost predicate MentionStarts(s: string) {
    exists n: nat, name :: n <= |s| && IsMention(s[..n], name)
  }

  /** Every mention is one, and no other character starts one. */
  ghost predicate AreCut(pieces: seq<Piece>) {
    pieces == [] ||
    (AreCut(pieces[1..]) &&
     if pieces[0].Mention? then IsMention(pieces[0].text, pieces[0].name) else !MentionStarts(Spelled(pieces)))
  }

  lemma MentionLength(s: string, n: nat, name: string)
    requires n <= |s|
    ensures IsMention(s[..n], name) <==> NameAt(s) > 0 && n == 12 + NameAt(s) && name == s[11..11 + NameAt(s)]
  {
    hide NameLength;
    if IsMention(s[..n], name) {
      MentionIsRead(s, n, name);
    }
    if NameAt(s) > 0 && n == 12 + NameAt(s) && name == s[11..11 + NameAt(s)] {
      assert s[..n] == s[..11] + name + [s[n - 1]];
      assert forall k :: 0 <= k < |name| ==> IsNameChar(name[k]);
    }
  }

  lemma MentionIsRead(s: string, n: nat, name: string)
    requires n <= |s| && IsMention(s[..n], name)
    ensures n == 12 + |name| && NameAt(s) == |name| && name == s[11..11 + |name|]
  {
    hide NameLength;
    var t := s[..n];
    assert t[..11] == s[..11] == FEATURE;
    assert t[11..11 + |name|] == name && t[11 + |name|] == '"';
    assert s[11..11 + |name|] == name && s[11 + |name|] == '"';
    var tail := s[11..];
    assert forall k :: 0 <= k < |name| ==> tail[k] == name[k] && IsNameChar(name[k]);
    assert tail[|name|] == '"' && !IsNameChar('"');
  }

  lemma {:induction false} FindOfPieces(pieces: seq<Piece>)
    requires AreCut(pieces)
    ensures FindNames(Spelled(pieces)) == Mentioned(pieces)
  {
    hide NameAt, IsMention;
    if pieces != [] {
      var s, rest := Spelled(pieces), Spelled(pieces[1..]);
      FindOfPieces(pieces[1..]);
      if pieces[0].Mention? {
        var text, name := pieces[0].text, pieces[0].name;
        assert s[..|text|] == text && s[|text|..] == rest;
        MentionLength(s, |text|, name);
      } else {
        assert s[1..] == rest;
        var n := NameAt(s);
        if n > 0 {
          MentionLength(s, 12 + n, s[11..11 + n]);
        }
        assert n == 0;
      }
    }
  }

  lemma {:induction false} FindPieces(s: string) returns (pieces: seq<Piece>)
    ensures AreCut(pieces) && Spelled(pieces) == s
    decreases |s|
  {
    hide NameAt, IsMention;
    if s == [] {
      pieces := [];
    } else {
      var n := NameAt(s);
      var more;
      if n > 0 {
        MentionLength(s, 12 + n, s[11..11 + n]);
        more := FindPieces(s[12 + n..]);
        pieces := [Mention(s[..12 + n], s[11..11 + n])] + more;
        assert s == s[..12 + n] + s[12 + n..];
      } else {
        more := FindPieces(s[1..]);
        pieces := [Piece.Other(s[0])] + more;
        assert s == [s[0]] + s[1..];
        forall k: nat, name | k <= |s|
          ensures !IsMention(s[..k], name)
        {
          MentionLength(s, k, name);
        }
      }
      assert pieces[1..] == more;
    }
  }

  /** The names read off a text are those of its mentions, left to right. */
  lemma FindNamesIff(s: string, names: seq<string>)
    ensures FindNames(s) == names <==>
            exists pieces :: AreCut(pieces) && Spelled(pieces) == s && Mentioned(pieces) == names
  {
    hide FindNames, AreCut, Mentioned, Spelled;
    var pieces := FindPieces(s);
    FindOfPieces(pieces);
    forall other | AreCut(other) && Spelled(other) == s
      ensures Mentioned(other) == FindNames(s)
    {
      FindOfPieces(other);
    }
  }

  predicate AnyAt(s: string, k: nat) {
    k + 4 <= |s| && s[k..k + 4] == "any("
  }

  lemma {:induction false} MentionsAnyIff(s: string)
    ensures MentionsAny(s) <==> exists k: nat :: AnyAt(s, k)
  {
    if |s| >= 4 {
      assert s[..4] == s[0..0 + 4];
      MentionsAnyIff(s[1..]);
      if s[..4] == "any(" {
        assert AnyAt(s, 0);
      } else if MentionsAny(s[1..]) {
        var k: nat :| AnyAt(s[1..], k);
        assert s[1..][k..k + 4] == s[k + 1..k + 1 + 4];
        assert AnyAt(s, k + 1);
      }
      forall k: nat | k > 0 && AnyAt(s, k)
        ensures AnyAt(s[1..], k - 1)
      {
        assert s[1..][k - 1..k - 1 + 4] == s[k..k + 4];
      }
    }
  }

  /** For every text, the names are read as one alternative exactly when the text without its padding
      starts an `all` and holds no `any`, and each alone otherwise. */
  lemma AlternativesIs(expr: string)
    ensures var names := FindNames(expr);
            Alternatives(expr) ==
            if names == [] then []
            else if (exists rest :: Strip(expr) == "all(" + rest) && !exists k: nat :: AnyAt(Strip(expr), k)
            then [set n | n in names]
            else Singletons(names)
  {
    hide FindNames, Strip, MentionsAny;
    var body := Strip(expr);
    MentionsAnyIff(body);
    if StartsWith(body, "all(") {
      assert body == "all(" + body[4..];
    }
    forall rest | body == "all(" + rest
      ensures StartsWith(body, "all(")
    {
      assert body[..4] == "all(";
    }
  }
}

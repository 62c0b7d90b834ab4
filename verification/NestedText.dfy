/** The inside of Rust block comments, which nest: text and the delimiters of further comments. */
module NestedText {
  import opened RustQuotes

  datatype Part = Words(text: string) | Opening | Closing

  function Written(parts: seq<Part>): string {
    if parts == [] then "" else Spelling(parts[0]) + Written(parts[1..])
  }

  function Spelling(part: Part): string {
    match part
    case Words(text) => text
    case Opening => "/*"
    case Closing => "*/"
  }

  /** A comment delimiter starts at `k`. */
  predicate DelimiterAt(text: string, k: nat) {
    PairAt(text, k, '/', '*') || PairAt(text, k, '*', '/')
  }

  /** No delimiter starts inside the words, counting what is written behind them; single slashes and
      stars are words like any other. */
  predicate Clean(parts: seq<Part>, after: string) {
    parts == [] ||
    (Clean(parts[1..], after) &&
     (parts[0].Words? ==> forall k :: 0 <= k < |parts[0].text| ==> !DelimiterAt(Written(parts) + after, k)))
  }

  /** Openings less closings. */
  function Net(parts: seq<Part>): int {
    (multiset(parts)[Opening] as int) - multiset(parts)[Closing]
  }

  /** Some comment stays open all the way, where `depth` are open to begin with. */
  ghost predicate StaysOpen(parts: seq<Part>, depth: int) {
    forall n :: 0 <= n <= |parts| ==> depth + Net(parts[..n]) >= 1
  }

  function Value(part: Part): int {
    match part
    case Words(_) => 0
    case Opening => 1
    case Closing => -1
  }

  lemma NetOfConcat(a: seq<Part>, b: seq<Part>)
    ensures Net(a + b) == Net(a) + Net(b)
  {
  }

  lemma NetOfCons(part: Part, parts: seq<Part>)
    ensures Net([part] + parts) == Value(part) + Net(parts)
  {
    NetOfConcat([part], parts);
    assert multiset([part]) == multiset{part};
  }

  lemma StaysOpenCons(part: Part, parts: seq<Part>, depth: int)
    ensures StaysOpen([part] + parts, depth) <==> depth >= 1 && StaysOpen(parts, depth + Value(part))
  {
    hide Net;
    var all := [part] + parts;
    NetOfNone();
    forall n | 0 <= n <= |parts|
      ensures all[..n + 1] == [part] + parts[..n] && Net(all[..n + 1]) == Value(part) + Net(parts[..n])
    {
      NetOfCons(part, parts[..n]);
    }
    assert all[..0] == [];
    if StaysOpen(all, depth) {
      assert depth + Net(all[..0]) >= 1;
      forall n | 0 <= n <= |parts|
        ensures depth + Value(part) + Net(parts[..n]) >= 1
      {
        assert depth + Net(all[..n + 1]) >= 1;
      }
    }
    if depth >= 1 && StaysOpen(parts, depth + Value(part)) {
      forall n | 0 <= n <= |all|
        ensures depth + Net(all[..n]) >= 1
      {
        if n > 0 {
          assert depth + Value(part) + Net(parts[..n - 1]) >= 1;
        }
      }
    }
  }

  lemma NetOfNone()
    ensures Net([]) == 0
  {
  }

  lemma StaysOpenNow(parts: seq<Part>, depth: int)
    requires StaysOpen(parts, depth)
    ensures depth >= 1 && depth + Net(parts) >= 1
  {
    hide Net;
    NetOfNone();
    assert parts[..0] == [] && parts[..|parts|] == parts;
    assert depth + Net(parts[..0]) >= 1 && depth + Net(parts[..|parts|]) >= 1;
  }

  lemma StaysOpenOfConcat(a: seq<Part>, b: seq<Part>, depth: int)
    ensures StaysOpen(a + b, depth) <==> StaysOpen(a, depth) && StaysOpen(b, depth + Net(a))
  {
    hide Net;
    forall n | 0 <= n <= |a|
      ensures (a + b)[..n] == a[..n]
    {
    }
    forall n | 0 <= n <= |b|
      ensures (a + b)[..|a| + n] == a + b[..n] && Net((a + b)[..|a| + n]) == Net(a) + Net(b[..n])
    {
      assert (a + b)[..|a| + n] == a + b[..n];
      NetOfConcat(a, b[..n]);
    }
    if StaysOpen(a + b, depth) {
      assert forall n :: 0 <= n <= |a| ==> depth + Net((a + b)[..n]) >= 1;
      forall n | 0 <= n <= |b|
        ensures depth + Net(a) + Net(b[..n]) >= 1
      {
        assert depth + Net((a + b)[..|a| + n]) >= 1;
      }
    }
    if StaysOpen(a, depth) && StaysOpen(b, depth + Net(a)) {
      forall n | 0 <= n <= |a + b|
        ensures depth + Net((a + b)[..n]) >= 1
      {
        if n <= |a| {
          assert depth + Net(a[..n]) >= 1;
        } else {
          assert depth + Net(a) + Net(b[..n - |a|]) >= 1;
          assert (a + b)[..|a| + (n - |a|)] == (a + b)[..n];
        }
      }
    }
  }

  /** The text ends the comment at the `*` + `/` that leads `after`, or, with nothing in `after`, leaves it open. */
  ghost predicate Splits(text: string, depth: int, parts: seq<Part>, after: string) {
    && text == Written(parts) + after
    && Clean(parts, after) && StaysOpen(parts, depth)
    && (after != "" ==> PairAt(after, 0, '*', '/') && depth + Net(parts) == 1)
  }

  lemma SplitsCons(part: Part, text: string, depth: int, parts: seq<Part>, after: string)
    requires depth >= 1 && Splits(text, depth + Value(part), parts, after)
    requires part.Words? ==> forall k :: 0 <= k < |part.text| ==> !DelimiterAt(part.text + text, k)
    ensures Splits(Spelling(part) + text, depth, [part] + parts, after)
  {
    hide StaysOpen, Net, DelimiterAt;
    var all := [part] + parts;
    assert all[1..] == parts;
    assert Spelling(part) + (Written(parts) + after) == (Spelling(part) + Written(parts)) + after;
    StaysOpenCons(part, parts, depth);
    NetOfCons(part, parts);
  }

  /** Any text behind an opening is parts up to the closing of the comment, or parts to its end. */
  lemma {:induction false} SplitExists(text: string, depth: nat) returns (parts: seq<Part>, after: string)
    requires depth >= 1
    ensures Splits(text, depth, parts, after)
    decreases |text|
  {
    hide StaysOpen, Splits;
    if text == "" || (depth == 1 && PairAt(text, 0, '*', '/')) {
      parts, after := [], text;
      NothingSplits(text, depth);
    } else if PairAt(text, 0, '*', '/') {
      parts, after := SplitExists(text[2..], depth - 1);
      SplitsCons(Closing, text[2..], depth, parts, after);
      parts := [Closing] + parts;
      assert text == "*/" + text[2..];
    } else if PairAt(text, 0, '/', '*') {
      parts, after := SplitExists(text[2..], depth + 1);
      SplitsCons(Opening, text[2..], depth, parts, after);
      parts := [Opening] + parts;
      assert text == "/*" + text[2..];
    } else {
      parts, after := SplitExists(text[1..], depth);
      assert text == [text[0]] + text[1..];
      SplitsCons(Words([text[0]]), text[1..], depth, parts, after);
      parts := [Words([text[0]])] + parts;
    }
  }

  lemma NothingSplits(text: string, depth: nat)
    requires depth >= 1 && (text == "" || (depth == 1 && PairAt(text, 0, '*', '/')))
    ensures Splits(text, depth, [], text)
  {
    NetOfNone();
    assert "" + text == text;
  }

  // ---------------------------------------------------------------- parts in a text

  /** The parts stand at `i` in the text, and `after` follows them to its end. */
  ghost predicate StandsAt(text: string, i: nat, parts: seq<Part>, after: string) {
    i <= |text| && text[i..] == Written(parts) + after && Clean(parts, after)
  }

  /** The part stands at `i` in the text. */
  ghost predicate PartAt(text: string, i: nat, part: Part) {
    match part
    case Words(words) => i + |words| <= |text| && forall k :: i <= k < i + |words| ==> !DelimiterAt(text, k)
    case Opening => PairAt(text, i, '/', '*')
    case Closing => PairAt(text, i, '*', '/')
  }

  lemma StandsWithin(text: string, i: nat, parts: seq<Part>, after: string)
    requires StandsAt(text, i, parts, after)
    ensures i + |Written(parts)| + |after| == |text|
  {
  }

  lemma DelimiterInSuffix(text: string, i: nat, k: nat)
    requires i <= |text|
    ensures DelimiterAt(text[i..], k) == DelimiterAt(text, i + k)
  {
  }

  lemma PartStands(text: string, i: nat, part: Part, rest: string)
    requires i <= |text| && text[i..] == Spelling(part) + rest
    requires part.Words? ==> forall k :: 0 <= k < |part.text| ==> !DelimiterAt(text[i..], k)
    ensures PartAt(text, i, part)
    ensures i + |Spelling(part)| <= |text| && text[i + |Spelling(part)|..] == rest
  {
    var m := |Spelling(part)|;
    assert text[i + m..] == text[i..][m..] == rest;
    if part.Words? {
      hide DelimiterAt;
      forall k | i <= k < i + m
        ensures !DelimiterAt(text, k)
      {
        DelimiterInSuffix(text, i, k - i);
      }
    } else {
      assert text[i] == text[i..][0] && text[i + 1] == text[i..][1];
    }
  }

  lemma FirstPart(text: string, i: nat, parts: seq<Part>, after: string)
    requires StandsAt(text, i, parts, after) && parts != []
    ensures PartAt(text, i, parts[0]) && StandsAt(text, i + |Spelling(parts[0])|, parts[1..], after)
    ensures |Written(parts)| == |Spelling(parts[0])| + |Written(parts[1..])|
  {
    hide DelimiterAt, PartAt, Spelling;
    assert Written(parts) + after == Spelling(parts[0]) + (Written(parts[1..]) + after);
    PartStands(text, i, parts[0], Written(parts[1..]) + after);
  }

  lemma FirstOpen(parts: seq<Part>, depth: int)
    requires StaysOpen(parts, depth) && parts != []
    ensures depth >= 1 && depth + Value(parts[0]) >= 1 && StaysOpen(parts[1..], depth + Value(parts[0]))
    ensures Net(parts) == Value(parts[0]) + Net(parts[1..])
  {
    hide StaysOpen, Net;
    assert parts == [parts[0]] + parts[1..];
    StaysOpenCons(parts[0], parts[1..], depth);
    StaysOpenNow(parts[1..], depth + Value(parts[0]));
    NetOfCons(parts[0], parts[1..]);
  }

  lemma SplitStands(text: string, i: nat, depth: int, parts: seq<Part>, after: string)
    requires i <= |text| && Splits(text[i..], depth, parts, after)
    ensures StandsAt(text, i, parts, after) && StaysOpen(parts, depth)
    ensures i + |Written(parts)| + |after| == |text|
    ensures after != "" ==> PairAt(text, i + |Written(parts)|, '*', '/') && depth + Net(parts) == 1
  {
    hide StaysOpen, Net, Clean, Written;
    var q := i + |Written(parts)|;
    assert text[q..] == text[i..][|Written(parts)|..] == after;
    if after != "" {
      assert text[q] == text[q..][0] && text[q + 1] == text[q..][1];
    }
  }
}

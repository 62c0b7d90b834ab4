/** What the two Rust scanners share: identifier characters and the end of a raw string. `alnum`
    stands for Python's `str.isalnum`. */
module RustQuotes {
  import opened Options

  predicate IsIdent(alnum: char -> bool, c: char) {
    alnum(c) || c == '_'
  }

  predicate PairAt(text: string, i: nat, a: char, b: char) {
    i + 1 < |text| && text[i] == a && text[i + 1] == b
  }

  /** The quote and hashes that close a raw string stand at `j`. */
  predicate Closes(line: string, j: nat, n: nat) {
    j + 1 + n <= |line| && line[j] == '"' && forall k :: j < k <= j + n ==> line[k] == '#'
  }

  /** The first place at or after `j` where a raw string of `n` hashes closes, as `str.find` gives it. */
  function FindCloser(line: string, j: nat, n: nat): (at: Option<nat>)
    ensures at.Some? ==> j <= at.value && Closes(line, at.value, n)
    ensures at.Some? ==> forall k :: j <= k < at.value ==> !Closes(line, k, n)
    ensures at.None? ==> forall k :: j <= k ==> !Closes(line, k, n)
    decreases |line| - j
  {
    if j >= |line| then None
    else if Closes(line, j, n) then Some(j)
    else FindCloser(line, j + 1, n)
  }

  lemma {:induction false} CloserIs(line: string, j: nat, n: nat, at: nat)
    requires j <= at && Closes(line, at, n) && forall k :: j <= k < at ==> !Closes(line, k, n)
    ensures FindCloser(line, j, n) == Some(at)
  {
    hide Closes;
    var found := FindCloser(line, j, n);
    assert found.Some?;
  }

  /** One unit of the text between quotes: a backslash and any character, or a character that is neither
      a backslash nor the quote. */
  predicate IsUnit(u: string, quote: char) {
    (|u| == 2 && u[0] == '\\') || (|u| == 1 && u[0] != '\\' && u[0] != quote)
  }

  function UnitText(units: seq<string>): string {
    if units == [] then "" else units[0] + UnitText(units[1..])
  }
}

/** Tallies over sequences: refused as soon as one member is, and otherwise the same in every order. */
module Tallies {
  import opened Results
  import opened Sums
  import opened TestCount
  import opened CountTheorems

  function Fold<T>(f: T -> Result<Tally>, s: seq<T>): Result<Tally> {
    if s == [] then Ok(Tally(0, 0)) else Add(Fold(f, s[..|s| - 1]), f(s[|s| - 1]))
  }

  lemma AddSwap(a: Result<Tally>, b: Result<Tally>, c: Result<Tally>, d: Result<Tally>)
    ensures Add(Add(a, b), Add(c, d)) == Add(Add(a, c), Add(b, d))
  {
  }

  lemma {:induction false} FoldOfConcat<T>(f: T -> Result<Tally>, a: seq<T>, b: seq<T>)
    ensures Fold(f, a + b) == Add(Fold(f, a), Fold(f, b))
  {
    hide Add;
    if b == [] {
      assert a + b == a;
      AddNothing(Fold(f, a));
    } else {
      var n := |b| - 1;
      FoldOfConcat(f, a, b[..n]);
      assert (a + b)[..|a| + n] == a + b[..n];
      AddAssociative(Fold(f, a), Fold(f, b[..n]), f(b[n]));
    }
  }

  lemma FoldOfOne<T>(f: T -> Result<Tally>, x: T)
    ensures Fold(f, [x]) == f(x)
  {
    assert [x][..0] == [];
    AddNothing(f(x));
  }

  /** One member taken out and added last. */
  lemma FoldOfRemoval<T>(f: T -> Result<Tally>, s: seq<T>, i: nat)
    requires i < |s|
    ensures Fold(f, s) == Add(Fold(f, s[..i] + s[i + 1..]), f(s[i]))
  {
    hide Fold;
    assert s == s[..i] + ([s[i]] + s[i + 1..]);
    FoldOfConcat(f, s[..i], [s[i]] + s[i + 1..]);
    FoldOfConcat(f, [s[i]], s[i + 1..]);
    FoldOfOne(f, s[i]);
    FoldOfConcat(f, s[..i], s[i + 1..]);
  }

  /** The order of the members does not matter. */
  lemma {:induction false} FoldOfPermutation<T>(f: T -> Result<Tally>, a: seq<T>, b: seq<T>)
    requires multiset(a) == multiset(b)
    ensures Fold(f, a) == Fold(f, b)
    decreases |a|
  {
    if a == [] {
      assert |b| == |multiset(b)| == 0;
    } else {
      hide Add;
      var i := LastIsSomewhere(a, b);
      RemoveFromBoth(a, b, i);
      FoldOfPermutation(f, a[..|a| - 1], b[..i] + b[i + 1..]);
      FoldOfRemoval(f, b, i);
    }
  }

  lemma FoldOfRefused<T>(f: T -> Result<Tally>, s: seq<T>, x: T)
    requires x in s && f(x).Refused?
    ensures Fold(f, s).Refused?
  {
    hide Fold;
    var i :| 0 <= i < |s| && s[i] == x;
    FoldOfRemoval(f, s, i);
  }

  lemma {:induction false} FoldOfNothing<T>(f: T -> Result<Tally>, s: seq<T>)
    requires forall i :: 0 <= i < |s| ==> Totals(f(s[i]), 0)
    ensures Totals(Fold(f, s), 0)
  {
    if s != [] {
      FoldOfNothing(f, s[..|s| - 1]);
    }
  }
}

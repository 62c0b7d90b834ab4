/** Python's `sorted`: a stable sort by a strict order, and the order of strings. */
module Sorting {

  /** `x` placed after every element it is not below, so equal keys keep their order. */
  function Insert<T>(less: (T, T) -> bool, s: seq<T>, x: T): seq<T> {
    if s == [] then [x]
    else if less(x, s[0]) then [x] + s
    else [s[0]] + Insert(less, s[1..], x)
  }

  function Sort<T>(less: (T, T) -> bool, s: seq<T>): seq<T> {
    if s == [] then [] else Insert(less, Sort(less, s[..|s| - 1]), s[|s| - 1])
  }

  /** No element is above a later one. */
  ghost predicate Ascending<T>(less: (T, T) -> bool, s: seq<T>) {
    forall i, j :: 0 <= i < j < |s| ==> !less(s[j], s[i])
  }

  /** What a comparison of keys satisfies. */
  ghost predicate StrictWeakOrder<T(!new)>(less: (T, T) -> bool) {
    && (forall x :: !less(x, x))
    && (forall x, y, z :: less(x, y) && less(y, z) ==> less(x, z))
    && (forall x, y, z :: !less(x, y) && !less(y, z) ==> !less(x, z))
  }

  lemma {:induction false} InsertPermutes<T>(less: (T, T) -> bool, s: seq<T>, x: T)
    ensures multiset(Insert(less, s, x)) == multiset(s) + multiset{x}
  {
    if s != [] && !less(x, s[0]) {
      InsertPermutes(less, s[1..], x);
      assert s == [s[0]] + s[1..];
    }
  }

  lemma {:induction false} SortPermutes<T>(less: (T, T) -> bool, s: seq<T>)
    ensures multiset(Sort(less, s)) == multiset(s)
    ensures |Sort(less, s)| == |s|
  {
    if s != [] {
      SortPermutes(less, s[..|s| - 1]);
      InsertPermutes(less, Sort(less, s[..|s| - 1]), s[|s| - 1]);
      assert s == s[..|s| - 1] + [s[|s| - 1]];
    }
    assert |multiset(Sort(less, s))| == |Sort(less, s)| && |multiset(s)| == |s|;
  }

  lemma SameElements<T>(a: seq<T>, b: seq<T>)
    requires multiset(a) == multiset(b)
    ensures |a| == |b|
    ensures forall x :: x in a <==> x in b
  {
    assert |multiset(a)| == |a| && |multiset(b)| == |b|;
    assert forall x :: x in a <==> x in multiset(a);
    assert forall x :: x in b <==> x in multiset(b);
  }

  lemma {:induction false} InsertSorts<T(!new)>(less: (T, T) -> bool, s: seq<T>, x: T)
    requires StrictWeakOrder(less) && Ascending(less, s)
    ensures Ascending(less, Insert(less, s, x))
  {
    if s != [] {
      if less(x, s[0]) {
        assert forall j :: 0 <= j < |s| ==> !less(s[j], x);
      } else {
        InsertSorts(less, s[1..], x);
        var rest := Insert(less, s[1..], x);
        InsertPermutes(less, s[1..], x);
        forall y | y in rest
          ensures !less(y, s[0])
        {
          assert y in multiset(rest);
        }
      }
    }
  }

  lemma {:induction false} SortSorts<T(!new)>(less: (T, T) -> bool, s: seq<T>)
    requires StrictWeakOrder(less)
    ensures Ascending(less, Sort(less, s))
  {
    if s != [] {
      SortSorts(less, s[..|s| - 1]);
      InsertSorts(less, Sort(less, s[..|s| - 1]), s[|s| - 1]);
    }
  }

  /** The order tells any two different members apart. */
  ghost predicate Separates<T>(less: (T, T) -> bool, s: seq<T>) {
    forall x, y :: x in s && y in s && x != y ==> less(x, y) || less(y, x)
  }

  lemma HeadsAgree<T(!new)>(less: (T, T) -> bool, a: seq<T>, b: seq<T>)
    requires StrictWeakOrder(less) && Separates(less, a) && a != [] && b != []
    requires Ascending(less, a) && Ascending(less, b)
    requires a[0] in b && b[0] in a
    ensures a[0] == b[0]
  {
    var i :| 0 <= i < |b| && b[i] == a[0];
    var j :| 0 <= j < |a| && a[j] == b[0];
    assert !less(a[0], b[0]) && !less(b[0], a[0]);
  }

  lemma TailsAgree<T>(a: seq<T>, b: seq<T>)
    requires a != [] && b != [] && a[0] == b[0] && multiset(a) == multiset(b)
    ensures multiset(a[1..]) == multiset(b[1..])
  {
    assert a == [a[0]] + a[1..];
    assert b == [b[0]] + b[1..];
    assert multiset(a[1..]) == multiset(a) - multiset{a[0]};
  }

  /** Two ascending arrangements of the same members are the same arrangement. */
  lemma {:induction false} AscendingIsUnique<T(!new)>(less: (T, T) -> bool, a: seq<T>, b: seq<T>)
    requires StrictWeakOrder(less) && Separates(less, a)
    requires Ascending(less, a) && Ascending(less, b) && multiset(a) == multiset(b)
    ensures a == b
  {
    SameElements(a, b);
    if a != [] {
      HeadsAgree(less, a, b);
      TailsAgree(a, b);
      hide StrictWeakOrder;
      AscendingIsUnique(less, a[1..], b[1..]);
      assert a == [a[0]] + a[1..] && b == [b[0]] + b[1..];
    }
  }

  /** Sorting forgets the order of its input when the keys tell the members apart. */
  lemma SortOfPermutation<T(!new)>(less: (T, T) -> bool, s: seq<T>, t: seq<T>)
    requires StrictWeakOrder(less) && Separates(less, s) && multiset(s) == multiset(t)
    ensures Sort(less, s) == Sort(less, t)
  {
    SortSorts(less, s);
    SortSorts(less, t);
    SortPermutes(less, s);
    SortPermutes(less, t);
    SameElements(Sort(less, s), s);
    AscendingIsUnique(less, Sort(less, s), Sort(less, t));
  }

  // ---------------------------------------------------------------- stability

  /** The members that satisfy `p`, in order. */
  function Only<T>(p: T -> bool, s: seq<T>): seq<T> {
    if s == [] then [] else (if p(s[0]) then [s[0]] else []) + Only(p, s[1..])
  }

  /** The order does not tell these members apart. */
  ghost predicate Ties<T(!new)>(less: (T, T) -> bool, p: T -> bool) {
    forall x, y :: p(x) && p(y) ==> !less(x, y)
  }

  lemma {:induction false} OnlyAppend<T>(p: T -> bool, s: seq<T>, x: T)
    ensures Only(p, s + [x]) == Only(p, s) + if p(x) then [x] else []
  {
    if s == [] {
      assert s + [x] == [x] && [x][1..] == [];
    } else {
      assert (s + [x])[1..] == s[1..] + [x];
      OnlyAppend(p, s[1..], x);
    }
  }

  lemma {:induction false} OnlyNone<T>(p: T -> bool, s: seq<T>)
    requires forall x :: x in s ==> !p(x)
    ensures Only(p, s) == []
  {
    if s != [] {
      assert s[0] in s;
      OnlyNone(p, s[1..]);
    }
  }

  lemma NoTieAfter<T(!new)>(less: (T, T) -> bool, p: T -> bool, s: seq<T>, x: T)
    requires StrictWeakOrder(less) && Ties(less, p) && Ascending(less, s) && s != [] && less(x, s[0]) && p(x)
    ensures forall y :: y in s ==> !p(y)
  {
    forall y | y in s
      ensures !p(y)
    {
      var j :| 0 <= j < |s| && s[j] == y;
      assert !less(s[j], s[0]);
    }
  }

  lemma AscendingRest<T(!new)>(less: (T, T) -> bool, s: seq<T>)
    requires Ascending(less, s) && s != []
    ensures Ascending(less, s[1..])
  {
  }

  lemma OnlyOfCons<T>(p: T -> bool, x: T, s: seq<T>)
    ensures Only(p, [x] + s) == (if p(x) then [x] else []) + Only(p, s)
  {
    assert ([x] + s)[1..] == s;
  }

  lemma {:induction false} InsertIsStable<T(!new)>(less: (T, T) -> bool, p: T -> bool, s: seq<T>, x: T)
    requires StrictWeakOrder(less) && Ties(less, p) && Ascending(less, s)
    ensures Only(p, Insert(less, s, x)) == Only(p, s) + if p(x) then [x] else []
  {
    hide StrictWeakOrder, Ties, Ascending, Only;
    if s == [] {
      assert [x] + s == [x];
      OnlyOfCons(p, x, s);
      OnlyNone(p, s);
    } else if less(x, s[0]) {
      OnlyOfCons(p, x, s);
      if p(x) {
        NoTieAfter(less, p, s, x);
        OnlyNone(p, s);
      }
    } else {
      AscendingRest(less, s);
      InsertIsStable(less, p, s[1..], x);
      OnlyOfCons(p, s[0], Insert(less, s[1..], x));
      OnlyOfCons(p, s[0], s[1..]);
      assert s == [s[0]] + s[1..];
    }
  }

  /** Members the order does not tell apart keep the order they came in. */
  lemma {:induction false} SortIsStable<T(!new)>(less: (T, T) -> bool, p: T -> bool, s: seq<T>)
    requires StrictWeakOrder(less) && Ties(less, p)
    ensures Only(p, Sort(less, s)) == Only(p, s)
  {
    if s != [] {
      var n := |s| - 1;
      SortIsStable(less, p, s[..n]);
      SortSorts(less, s[..n]);
      InsertIsStable(less, p, Sort(less, s[..n]), s[n]);
      OnlyAppend(p, s[..n], s[n]);
      assert s == s[..n] + [s[n]];
    }
  }

  // ---------------------------------------------------------------- strings

  /** Strings compared by code point, as Python compares them. */
  predicate Before(a: string, b: string) {
    b != [] && (a == [] || a[0] < b[0] || (a[0] == b[0] && Before(a[1..], b[1..])))
  }

  lemma {:induction false} BeforeTransitive(a: string, b: string, c: string)
    requires Before(a, b) && Before(b, c)
    ensures Before(a, c)
  {
    if a != [] && a[0] == b[0] && b[0] == c[0] {
      BeforeTransitive(a[1..], b[1..], c[1..]);
    }
  }

  lemma {:induction false} BeforeIrreflexive(a: string)
    ensures !Before(a, a)
  {
    if a != [] {
      BeforeIrreflexive(a[1..]);
    }
  }

  lemma {:induction false} BeforeTotal(a: string, b: string)
    ensures a == b || Before(a, b) || Before(b, a)
  {
    if a != [] && b != [] && a[0] == b[0] {
      BeforeTotal(a[1..], b[1..]);
      assert a == [a[0]] + a[1..] && b == [b[0]] + b[1..];
    }
  }

  /** The order of strings is a strict total order. */
  lemma BeforeIsTotalOrder()
    ensures StrictWeakOrder(Before)
    ensures forall a: string, b: string :: a == b || Before(a, b) || Before(b, a)
  {
    forall a: string
      ensures !Before(a, a)
    {
      BeforeIrreflexive(a);
    }
    forall a: string, b: string, c: string | Before(a, b) && Before(b, c)
      ensures Before(a, c)
    {
      BeforeTransitive(a, b, c);
    }
    forall a: string, b: string
      ensures a == b || Before(a, b) || Before(b, a)
    {
      BeforeTotal(a, b);
    }
    forall a: string, b: string, c: string | !Before(a, b) && !Before(b, c)
      ensures !Before(a, c)
    {
      BeforeTotal(a, b);
      BeforeTotal(b, c);
      if Before(a, c) {
        if a != b && b != c {
          BeforeTransitive(c, b, a);
          BeforeTransitive(a, c, a);
          BeforeIrreflexive(a);
        }
      }
    }
  }

  /** One string comes before another exactly when it is a proper beginning of it, or has the smaller
      character where they first differ. */
  lemma {:induction false} BeforeIff(a: string, b: string)
    ensures Before(a, b) <==>
            exists n: nat ::
              && n <= |a| && n < |b| && a[..n] == b[..n]
              && (n == |a| || a[n] < b[n])
  {
    if Before(a, b) {
      FirstDifference(a, b);
    }
    forall n: nat | n <= |a| && n < |b| && a[..n] == b[..n] && (n == |a| || a[n] < b[n])
      ensures Before(a, b)
    {
      DifferenceDecides(a, b, n);
    }
  }

  lemma {:induction false} FirstDifference(a: string, b: string)
    requires Before(a, b)
    ensures exists n: nat :: n <= |a| && n < |b| && a[..n] == b[..n] && (n == |a| || a[n] < b[n])
  {
    if a == [] || a[0] < b[0] {
      assert a[..0] == b[..0];
    } else {
      FirstDifference(a[1..], b[1..]);
      var n: nat :| n <= |a[1..]| && n < |b[1..]| && a[1..][..n] == b[1..][..n] &&
                    (n == |a[1..]| || a[1..][n] < b[1..][n]);
      assert a[..n + 1] == [a[0]] + a[1..][..n] == [b[0]] + b[1..][..n] == b[..n + 1];
    }
  }

  lemma {:induction false} DifferenceDecides(a: string, b: string, n: nat)
    requires n <= |a| && n < |b| && a[..n] == b[..n] && (n == |a| || a[n] < b[n])
    ensures Before(a, b)
  {
    if n > 0 {
      assert a[0] == a[..n][0] == b[..n][0] == b[0];
      assert a[1..][..n - 1] == a[..n][1..] == b[..n][1..] == b[1..][..n - 1];
      DifferenceDecides(a[1..], b[1..], n - 1);
    }
  }
}

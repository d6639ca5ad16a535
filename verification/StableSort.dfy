/** Sorting with a key, as the language's `sort` does it: in order, and as before among equals. */
module StableSort {
  /** A strict order in which elements that neither precede nor follow each other stand together. */
  ghost predicate WeakOrder<T(!new)>(worse: (T, T) -> bool) {
    && (forall a, b :: !(worse(a, b) && worse(b, a)))
    && forall a, b, c :: worse(a, b) && !worse(c, b) ==> worse(a, c)
  }

  ghost predicate InOrder<T>(s: seq<T>, worse: (T, T) -> bool) {
    forall i, k | 0 <= i < k < |s| :: !worse(s[i], s[k])
  }

  predicate Tied<T>(a: T, b: T, worse: (T, T) -> bool) {
    !worse(a, b) && !worse(b, a)
  }

  /** The elements that tie with `x`, in the order they stand. */
  function Ties<T>(s: seq<T>, x: T, worse: (T, T) -> bool): seq<T> {
    if s == [] then []
    else Ties(s[..|s|-1], x, worse) + if Tied(s[|s|-1], x, worse) then [s[|s|-1]] else []
  }

  ghost predicate SameTies<T(!new)>(a: seq<T>, b: seq<T>, worse: (T, T) -> bool) {
    forall x :: Ties(a, x, worse) == Ties(b, x, worse)
  }

  /** The same elements, best first, and those that tie in their old order. */
  ghost predicate Sorts<T(!new)>(sorted: seq<T>, s: seq<T>, worse: (T, T) -> bool) {
    multiset(sorted) == multiset(s) && InOrder(sorted, worse) && SameTies(sorted, s, worse)
  }

  lemma {:induction false} TiesConcat<T>(a: seq<T>, b: seq<T>, x: T, worse: (T, T) -> bool)
    ensures Ties(a + b, x, worse) == Ties(a, x, worse) + Ties(b, x, worse)
  {
    if b == [] {
      assert a + b == a;
    } else {
      assert (a + b)[..|a + b|-1] == a + b[..|b|-1];
      TiesConcat(a, b[..|b|-1], x, worse);
    }
  }

  lemma {:induction false} NoTies<T>(s: seq<T>, x: T, worse: (T, T) -> bool)
    requires forall i | 0 <= i < |s| :: !Tied(s[i], x, worse)
    ensures Ties(s, x, worse) == []
  {
    if s != [] { NoTies(s[..|s|-1], x, worse); }
  }

  lemma TiesOneMore<T>(s: seq<T>, e: T, x: T, worse: (T, T) -> bool)
    ensures Ties(s + [e], x, worse) == if Tied(e, x, worse) then Ties(s, x, worse) + [e] else Ties(s, x, worse)
  {
    assert (s + [e])[..|s|] == s;
    assert Ties(s, x, worse) + [] == Ties(s, x, worse);
  }

  lemma LastTies<T(!new)>(a: seq<T>, b: seq<T>, worse: (T, T) -> bool)
    requires WeakOrder(worse) && InOrder(a, worse) && InOrder(b, worse)
    requires a != [] && b != [] && multiset(a) == multiset(b)
    ensures Tied(a[|a|-1], b[|b|-1], worse)
  {
    var x, y := a[|a|-1], b[|b|-1];
    assert x in multiset(b) && y in multiset(a);
    var i :| 0 <= i < |b| && b[i] == x;
    var k :| 0 <= k < |a| && a[k] == y;
  }

  /** If the last elements tie, they are the same, and the rest has the same ties. */
  lemma LastIsSame<T(!new)>(a: seq<T>, d: T, b: seq<T>, e: T, worse: (T, T) -> bool)
    requires WeakOrder(worse) && Tied(d, e, worse) && SameTies(a + [d], b + [e], worse)
    ensures d == e && SameTies(a, b, worse)
  {
    TiesOneMore(a, d, d, worse);
    TiesOneMore(b, e, d, worse);
    SameEnd(Ties(a, d, worse), d, Ties(b, d, worse), e);
    forall x ensures Ties(a, x, worse) == Ties(b, x, worse) {
      TiesOneMore(a, d, x, worse);
      TiesOneMore(b, e, x, worse);
      assert Ties(a + [d], x, worse) == Ties(b + [e], x, worse);
      if Tied(d, x, worse) { SameEnd(Ties(a, x, worse), d, Ties(b, x, worse), e); }
    }
  }

  lemma SameEnd<T>(p: seq<T>, d: T, q: seq<T>, e: T)
    requires p + [d] == q + [e]
    ensures p == q && d == e
  {
    assert |p + [d]| == |p| + 1 && |q + [e]| == |q| + 1;
    assert (p + [d])[|p|] == d && (q + [e])[|q|] == e;
    assert p == (p + [d])[..|p|] && q == (q + [e])[..|q|];
  }

  /** There is only one such list. */
  lemma {:induction false} SortIsUnique<T(!new)>(a: seq<T>, b: seq<T>, worse: (T, T) -> bool)
    requires WeakOrder(worse) && InOrder(a, worse) && Sorts(b, a, worse)
    ensures a == b
  {
    hide Ties, WeakOrder, SameTies, Tied, InOrder;
    assert |a| == |multiset(a)| == |multiset(b)| == |b|;
    if a != [] {
      var n := |a| - 1;
      assert a == a[..n] + [a[n]] && b == b[..n] + [b[n]];
      LastTies(a, b, worse);
      SameIsSymmetric(a, b, worse);
      LastIsSame(a[..n], a[n], b[..n], b[n], worse);
      SameIsSymmetric(a[..n], b[..n], worse);
      FrontSorts(a[..n], b[..n], a[n], worse);
      SortIsUnique(a[..n], b[..n], worse);
    }
  }

  lemma FrontSorts<T(!new)>(a: seq<T>, b: seq<T>, d: T, worse: (T, T) -> bool)
    requires InOrder(a + [d], worse) && InOrder(b + [d], worse)
    requires multiset(a + [d]) == multiset(b + [d]) && SameTies(b, a, worse)
    ensures InOrder(a, worse) && Sorts(b, a, worse)
  {
    hide SameTies;
    assert multiset(a) == multiset(a + [d]) - multiset{d} && multiset(b) == multiset(b + [d]) - multiset{d};
    assert forall i | 0 <= i < |a| :: a[i] == (a + [d])[i];
    assert forall i | 0 <= i < |b| :: b[i] == (b + [d])[i];
  }

  lemma SameIsSymmetric<T(!new)>(a: seq<T>, b: seq<T>, worse: (T, T) -> bool)
    ensures SameTies(a, b, worse) <==> SameTies(b, a, worse)
  {
  }

  lemma SortsAgree<T(!new)>(a: seq<T>, b: seq<T>, s: seq<T>, worse: (T, T) -> bool)
    requires WeakOrder(worse) && Sorts(a, s, worse) && Sorts(b, s, worse)
    ensures a == b
  {
    hide WeakOrder, Ties, InOrder;
    SortIsUnique(a, b, worse);
  }

  /** Putting `x` before the first element that is worse keeps ties in order. */
  lemma PlacedAfterTies<T(!new)>(s: seq<T>, k: nat, x: T, worse: (T, T) -> bool)
    requires WeakOrder(worse) && InOrder(s, worse) && k <= |s|
    requires k < |s| ==> worse(s[k], x)
    ensures SameTies(s[..k] + [x] + s[k..], s + [x], worse)
  {
    forall i | k <= i < |s| ensures worse(s[i], x) {
      assert i == k || !worse(s[k], s[i]);
    }
    assert s == s[..k] + s[k..];
    forall y ensures Ties(s[..k] + [x] + s[k..], y, worse) == Ties(s + [x], y, worse) {
      PlacedAfterTie(s[..k], s[k..], x, y, worse);
    }
  }

  lemma PlacedAfterTie<T(!new)>(a: seq<T>, b: seq<T>, x: T, y: T, worse: (T, T) -> bool)
    requires WeakOrder(worse) && forall i | 0 <= i < |b| :: worse(b[i], x)
    ensures Ties(a + [x] + b, y, worse) == Ties(a + b + [x], y, worse)
  {
    hide Ties;
    TiesConcat(a + [x], b, y, worse);
    TiesConcat(a, [x], y, worse);
    TiesConcat(a, b, y, worse);
    TiesConcat(a + b, [x], y, worse);
    if Tied(x, y, worse) { NoTies(b, y, worse); } else { NoTies([x], y, worse); }
  }

  lemma PlacedInOrder<T(!new)>(s: seq<T>, k: nat, x: T, worse: (T, T) -> bool)
    requires WeakOrder(worse) && InOrder(s, worse) && k <= |s|
    requires k < |s| ==> worse(s[k], x)
    requires forall i | 0 <= i < k :: !worse(s[i], x)
    ensures InOrder(s[..k] + [x] + s[k..], worse)
  {
    var r := s[..k] + [x] + s[k..];
    forall i, m | 0 <= i < m < |r| ensures !worse(r[i], r[m]) {
      if m < k {
        assert r[i] == s[i] && r[m] == s[m];
      } else if m == k {
        assert r[i] == s[i] && r[m] == x;
      } else if i < k {
        assert r[i] == s[i] && r[m] == s[m - 1];
      } else if i == k {
        assert r[i] == x && r[m] == s[m - 1];
        assert k == m - 1 || !worse(s[k], s[m - 1]);
      } else {
        assert r[i] == s[i - 1] && r[m] == s[m - 1];
      }
    }
  }

  lemma PlacedKeepsAll<T>(s: seq<T>, k: nat, x: T)
    requires k <= |s|
    ensures multiset(s[..k] + [x] + s[k..]) == multiset(s) + multiset{x}
  {
    assert s == s[..k] + s[k..];
  }

  lemma SortedMore<T(!new)>(sorted: seq<T>, s: seq<T>, r: seq<T>, x: T, worse: (T, T) -> bool)
    requires Sorts(sorted, s, worse) && InOrder(r, worse) && SameTies(r, sorted + [x], worse)
    requires multiset(r) == multiset(sorted) + multiset{x}
    ensures Sorts(r, s + [x], worse)
  {
    forall y ensures Ties(r, y, worse) == Ties(s + [x], y, worse) {
      TiesConcat(sorted, [x], y, worse);
      TiesConcat(s, [x], y, worse);
    }
  }

  method Sort<T(!new)>(s: seq<T>, worse: (T, T) -> bool) returns (sorted: seq<T>)
    requires WeakOrder(worse)
    ensures Sorts(sorted, s, worse)
  {
    hide Ties, SameTies, InOrder;
    sorted := [];
    assert Sorts([], s[..0], worse) by { NothingSorts(worse); }
    for n := 0 to |s|
      invariant Sorts(sorted, s[..n], worse)
    {
      var k := 0;
      while k < |sorted| && !worse(sorted[k], s[n])
        invariant 0 <= k <= |sorted| && forall i | 0 <= i < k :: !worse(sorted[i], s[n])
      {
        k := k + 1;
      }
      PlacedInOrder(sorted, k, s[n], worse);
      PlacedKeepsAll(sorted, k, s[n]);
      PlacedAfterTies(sorted, k, s[n], worse);
      var r := sorted[..k] + [s[n]] + sorted[k..];
      SortedMore(sorted, s[..n], r, s[n], worse);
      assert s[..n + 1] == s[..n] + [s[n]];
      sorted := r;
    }
    assert s[..|s|] == s;
  }

  lemma NothingSorts<T(!new)>(worse: (T, T) -> bool)
    ensures Sorts([], [], worse)
  {
  }
}

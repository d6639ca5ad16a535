/** Sequences without repetitions, shared by the models. */
module Sequences {
  predicate Distinct<T(==)>(s: seq<T>) {
    forall i, k | 0 <= i < k < |s| :: s[i] != s[k]
  }

  function Elements<T>(s: seq<T>): set<T> {
    set x | x in s
  }

  lemma DistinctConcat<T>(a: seq<T>, b: seq<T>)
    requires Distinct(a) && Distinct(b) && forall x | x in b :: x !in a
    ensures Distinct(a + b)
  {
    var s := a + b;
    forall i, k | 0 <= i < k < |s| ensures s[i] != s[k] {
      if i < |a| <= k { assert s[k] == b[k - |a|] && s[k] in b; }
    }
  }

  lemma {:induction false} DistinctSize<T>(s: seq<T>)
    requires Distinct(s)
    ensures |Elements(s)| == |s|
  {
    if s != [] {
      var last := |s| - 1;
      DistinctSize(s[..last]);
      assert Elements(s) == Elements(s[..last]) + {s[last]};
    }
  }

  lemma LastOfDistinct<T>(s: seq<T>)
    requires Distinct(s) && s != []
    ensures var last := |s| - 1;
            && Distinct(s[..last]) && s[last] !in s[..last]
            && (forall x :: x in s <==> x in s[..last] || x == s[last])
            && Elements(s) == Elements(s[..last]) + {s[last]}
  {
    assert s == s[..|s|-1] + [s[|s|-1]];
  }

  lemma SubsetSize<T>(a: set<T>, b: set<T>)
    requires a <= b
    ensures |a| <= |b|
  {
    assert b == a + (b - a);
  }

  predicate OccursAt<T(==)>(s: seq<T>, sub: seq<T>, i: nat) {
    i + |sub| <= |s| && s[i..i + |sub|] == sub
  }

  ghost predicate Contains<T>(s: seq<T>, sub: seq<T>) {
    exists i: nat :: OccursAt(s, sub, i)
  }

  /** `s` without its k-th element. */
  function WithoutAt<T>(s: seq<T>, k: nat): seq<T>
    requires k < |s|
  {
    s[..k] + s[k + 1..]
  }

  /** `s` with `x` put at place `k`. */
  function InsertAt<T>(s: seq<T>, k: nat, x: T): seq<T>
    requires k <= |s|
  {
    s[..k] + [x] + s[k..]
  }

  lemma InsertAtMembers<T>(s: seq<T>, k: nat, x: T)
    requires Distinct(s) && k <= |s| && x !in s
    ensures Distinct(InsertAt(s, k, x)) && WithoutAt(InsertAt(s, k, x), k) == s
    ensures forall y :: y in InsertAt(s, k, x) <==> y in s || y == x
  {
    var w := InsertAt(s, k, x);
    forall i | 0 <= i < |w| ensures w[i] == if i == k then x else s[if i < k then i else i - 1] {}
    forall i | 0 <= i < |s| ensures s[i] in w { assert w[if i < k then i else i + 1] == s[i]; }
    assert w[k] == x;
  }

  /** `s` with the elements at places `k` and `k + 1` exchanged. */
  function SwapAt<T>(s: seq<T>, k: nat): seq<T>
    requires k + 1 < |s|
  {
    s[k := s[k + 1]][k + 1 := s[k]]
  }

  /** Where the element at place `i` of the exchanged sequence comes from. */
  function SwapPlace(k: nat, i: nat): nat {
    if i == k then k + 1 else if i == k + 1 then k else i
  }

  lemma SwapAtMembers<T>(s: seq<T>, k: nat)
    requires Distinct(s) && k + 1 < |s|
    ensures Distinct(SwapAt(s, k)) && |SwapAt(s, k)| == |s|
    ensures forall i | 0 <= i < |s| :: SwapAt(s, k)[i] == s[SwapPlace(k, i)]
    ensures forall x :: x in SwapAt(s, k) <==> x in s
  {
    var w := SwapAt(s, k);
    forall i | 0 <= i < |s| ensures s[i] in w { assert w[SwapPlace(k, i)] == s[i]; }
    forall i, j | 0 <= i < j < |w| ensures w[i] != w[j] {
      assert w[i] == s[SwapPlace(k, i)] && w[j] == s[SwapPlace(k, j)];
    }
  }

  lemma WithoutAtMembers<T>(s: seq<T>, k: nat)
    requires Distinct(s) && k < |s|
    ensures Distinct(WithoutAt(s, k))
    ensures forall x :: x in WithoutAt(s, k) <==> x in s && x != s[k]
  {
    var w := WithoutAt(s, k);
    forall i | 0 <= i < |w| ensures w[i] == s[if i < k then i else i + 1] {}
    forall i | 0 <= i < |s| && i != k ensures s[i] in w {
      assert w[if i < k then i else i - 1] == s[i];
    }
  }
}

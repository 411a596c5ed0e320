/** `std::sort` with a comparator: a sorted permutation, with no promise on the order of equal elements. */
module Sorting {

  /** A comparator as the sort requires it on the elements of `xs`: asymmetric, with a transitive negation. */
  ghost predicate IsWeakOrder<T(!new)>(before: (T, T) -> bool, xs: seq<T>) {
    && (forall a, b :: a in xs && b in xs && before(a, b) ==> !before(b, a))
    && (forall a, b, c :: a in xs && b in xs && c in xs && !before(b, a) && !before(c, b) ==> !before(c, a))
  }

  ghost predicate InOrder<T>(before: (T, T) -> bool, s: seq<T>) {
    forall i, j :: 0 <= i < j < |s| ==> !before(s[j], s[i])
  }

  lemma {:induction false} InsertInOrder<T(!new)>(before: (T, T) -> bool, xs: seq<T>, s: seq<T>, x: T, k: nat)
    requires IsWeakOrder(before, xs) && x in xs && (forall i :: 0 <= i < |s| ==> s[i] in xs)
    requires InOrder(before, s) && k <= |s| && (k < |s| ==> before(x, s[k]))
    requires forall j :: 0 <= j < k ==> !before(x, s[j])
    ensures InOrder(before, s[..k] + [x] + s[k..])
  {
    forall j | k <= j < |s| ensures !before(s[j], x) {
      assert !before(s[k], x);
      if j > k { assert !before(s[j], s[k]); }
    }
    var out := s[..k] + [x] + s[k..];
    assert forall i :: 0 <= i < |out| ==> out[i] == if i < k then s[i] else if i == k then x else s[i - 1];
  }

  method Insert<T(!new)>(before: (T, T) -> bool, ghost xs: seq<T>, s: seq<T>, x: T) returns (out: seq<T>)
    requires IsWeakOrder(before, xs) && x in xs && (forall i :: 0 <= i < |s| ==> s[i] in xs) && InOrder(before, s)
    ensures InOrder(before, out) && multiset(out) == multiset(s) + multiset{x}
  {
    var k := 0;
    while k < |s| && !before(x, s[k])
      invariant k <= |s|
      invariant forall j :: 0 <= j < k ==> !before(x, s[j])
    {
      k := k + 1;
    }
    InsertInOrder(before, xs, s, x, k);
    assert s == s[..k] + s[k..];
    out := s[..k] + [x] + s[k..];
  }

  method Sort<T(!new)>(before: (T, T) -> bool, xs: seq<T>) returns (s: seq<T>)
    requires IsWeakOrder(before, xs)
    ensures InOrder(before, s) && multiset(s) == multiset(xs)
  {
    s := [];
    for n := 0 to |xs|
      invariant InOrder(before, s) && multiset(s) == multiset(xs[..n])
    {
      forall i | 0 <= i < |s| ensures s[i] in xs {
        assert s[i] in multiset(xs[..n]);
      }
      s := Insert(before, xs, s, xs[n]);
      assert xs[..n + 1] == xs[..n] + [xs[n]];
    }
    assert xs[..|xs|] == xs;
  }

  /** A permutation of distinct elements is distinct. */
  lemma {:induction false} PermutedStayDistinct<T>(s: seq<T>, t: seq<T>)
    requires multiset(s) == multiset(t) && forall i, j :: 0 <= i < j < |t| ==> t[i] != t[j]
    ensures |s| == |t| && forall i, j :: 0 <= i < j < |s| ==> s[i] != s[j]
  {
    assert |s| == |multiset(s)| == |multiset(t)| == |t|;
    forall i, j | 0 <= i < j < |s| ensures s[i] != s[j] {
      assert s == s[..i] + [s[i]] + s[i + 1..j] + [s[j]] + s[j + 1..];
      if s[i] == s[j] {
        assert multiset(t)[s[i]] >= 2;
        CountedOnce(t, s[i]);
      }
    }
  }

  lemma {:induction false} CountedOnce<T>(t: seq<T>, x: T)
    requires forall i, j :: 0 <= i < j < |t| ==> t[i] != t[j]
    ensures multiset(t)[x] <= 1
    decreases |t|
  {
    if t != [] {
      assert t == [t[0]] + t[1..];
      CountedOnce(t[1..], x);
      if t[0] == x { assert x !in t[1..]; }
    }
  }
}

/** First-occurrence search in sequences, as `std::string::find` performs it. */
module Search {

  datatype Option<+T> = None | Some(value: T)

  /** `needle` occurs in `hay` at index `i`. */
  ghost predicate OccursAt<T>(hay: seq<T>, needle: seq<T>, i: int) {
    0 <= i && i + |needle| <= |hay| && hay[i..i + |needle|] == needle
  }

  /** The first occurrence of `needle` at or after `from`. */
  function FindFrom<T(==)>(hay: seq<T>, needle: seq<T>, from: nat): (r: Option<nat>)
    ensures r.Some? ==> from <= r.value && OccursAt(hay, needle, r.value)
    ensures r.Some? ==> forall j :: from <= j < r.value ==> !OccursAt(hay, needle, j)
    ensures r.None? ==> forall j :: from <= j ==> !OccursAt(hay, needle, j)
    decreases |hay| - from
  {
    if from + |needle| > |hay| then None
    else if hay[from..from + |needle|] == needle then Some(from)
    else FindFrom(hay, needle, from + 1)
  }

  function Find<T(==)>(hay: seq<T>, needle: seq<T>): (r: Option<nat>)
    ensures r.Some? ==> OccursAt(hay, needle, r.value)
    ensures r.Some? ==> forall j :: 0 <= j < r.value ==> !OccursAt(hay, needle, j)
    ensures r.None? ==> forall j :: !OccursAt(hay, needle, j)
  {
    FindFrom(hay, needle, 0)
  }

  /** The first index at or after `from` that holds `c`. */
  function IndexOf<T(==)>(s: seq<T>, c: T, from: nat): (r: Option<nat>)
    ensures r.Some? ==> from <= r.value < |s| && s[r.value] == c && forall j :: from <= j < r.value ==> s[j] != c
    ensures r.None? ==> forall j :: from <= j < |s| ==> s[j] != c
    decreases |s| - from
  {
    if from >= |s| then None
    else if s[from] == c then Some(from)
    else IndexOf(s, c, from + 1)
  }

  lemma {:induction false} IndexOfIs<T>(s: seq<T>, c: T, from: nat, k: nat)
    requires from <= k < |s| && s[k] == c && forall j :: from <= j < k ==> s[j] != c
    ensures IndexOf(s, c, from) == Some(k)
  {
    var r := IndexOf(s, c, from);
    assert r.Some?;
  }

  predicate StartsWith<T(==)>(s: seq<T>, prefix: seq<T>)
    ensures StartsWith(s, prefix) <==> OccursAt(s, prefix, 0)
  {
    |prefix| <= |s| && s[..|prefix|] == prefix
  }

  ghost predicate Absent<T>(hay: seq<T>, needle: seq<T>) {
    forall j :: !OccursAt(hay, needle, j)
  }

  /** The first occurrence of `needle` in `hay` is at `i`. */
  ghost predicate FirstAt<T>(hay: seq<T>, needle: seq<T>, i: int) {
    OccursAt(hay, needle, i) && forall j :: 0 <= j < i ==> !OccursAt(hay, needle, j)
  }

  lemma {:induction false} FindIsFirst<T>(hay: seq<T>, needle: seq<T>, i: nat)
    requires FirstAt(hay, needle, i)
    ensures Find(hay, needle) == Some(i)
  {
    var r := Find(hay, needle);
    assert r.Some?;
    assert r.value == i;
  }

  lemma {:induction false} Regroup<T>(a: seq<T>, b: seq<T>, c: seq<T>)
    ensures a + b + c == a + (b + c)
  {
  }

  /** Searching for one element as a string is searching for the element. */
  lemma {:induction false} SingleFind<T>(s: seq<T>, c: T, from: nat)
    ensures FindFrom(s, [c], from) == IndexOf(s, c, from)
  {
    forall j: nat ensures OccursAt(s, [c], j) <==> j < |s| && s[j] == c {
      if j < |s| { assert s[j..j + 1] == [s[j]]; }
    }
  }

  /** The images of the elements, joined. */
  function ConcatMap<A, B>(f: A -> seq<B>, s: seq<A>): seq<B> {
    if s == [] then [] else f(s[0]) + ConcatMap(f, s[1..])
  }

  lemma {:induction false} ConcatMapAppend<A, B>(f: A -> seq<B>, s: seq<A>, t: seq<A>)
    ensures ConcatMap(f, s + t) == ConcatMap(f, s) + ConcatMap(f, t)
    decreases |s|
  {
    if s == [] {
      assert [] + t == t;
    } else {
      ConcatMapAppend(f, s[1..], t);
      assert (s + t)[1..] == s[1..] + t;
      Regroup(f(s[0]), ConcatMap(f, s[1..]), ConcatMap(f, t));
    }
  }

  lemma {:induction false} ConcatMapOne<A, B>(f: A -> seq<B>, x: A)
    ensures ConcatMap(f, [x]) == f(x)
  {
    assert [x][1..] == [];
  }

  /** One differing element rules an occurrence out. */
  lemma {:induction false} Differs<T>(hay: seq<T>, needle: seq<T>, i: nat, k: nat)
    requires k < |needle| && i + k < |hay| && hay[i + k] != needle[k]
    ensures !OccursAt(hay, needle, i)
  {
    assert i + |needle| <= |hay| ==> hay[i..i + |needle|][k] == hay[i + k];
  }

  /** An occurrence is decided by the bytes up to its end. */
  lemma {:induction false} OccurrenceInPrefix<T>(hay: seq<T>, more: seq<T>, needle: seq<T>, i: nat)
    requires i + |needle| <= |hay|
    ensures OccursAt(hay + more, needle, i) <==> OccursAt(hay, needle, i)
  {
    assert (hay + more)[i..i + |needle|] == hay[i..i + |needle|];
  }

  /** Data that arrives later does not move a first occurrence. */
  lemma {:induction false} FirstStableUnderAppend<T>(hay: seq<T>, more: seq<T>, needle: seq<T>, i: nat)
    requires FirstAt(hay, needle, i)
    ensures FirstAt(hay + more, needle, i)
  {
    OccurrenceInPrefix(hay, more, needle, i);
    forall j | 0 <= j < i ensures !OccursAt(hay + more, needle, j) {
      OccurrenceInPrefix(hay, more, needle, j);
    }
  }

  /** A prefix that stops before the end of the first occurrence holds none. */
  lemma {:induction false} NoneBeforeFirst<T>(hay: seq<T>, more: seq<T>, needle: seq<T>, i: nat)
    requires FirstAt(hay + more, needle, i)
    requires |hay| < i + |needle|
    ensures Find(hay, needle) == None
  {
    var r := Find(hay, needle);
    if r.Some? {
      OccurrenceInPrefix(hay, more, needle, r.value);
      assert false;
    }
  }
}

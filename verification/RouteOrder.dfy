/** Path normalisation, segment counting and the specificity order of dynamic routes. */
module RouteOrder {

  // ---- Paths ----

  function StripTrailingSlash(s: string): string {
    if |s| > 1 && s[|s| - 1] == '/' then s[..|s| - 1] else s
  }

  function WithLeadingSlash(path: string): string {
    if path == "" || path[0] != '/' then "/" + path else path
  }

  function NormalizePath(path: string): (p: string)
    ensures p != "" && p[0] == '/'
    ensures var q := if path != "" && path[0] == '/' then path else "/" + path;
            if |q| > 1 && q[|q| - 1] == '/' then p + "/" == q else p == q
  {
    if path == "" then "/" else StripTrailingSlash(WithLeadingSlash(path))
  }

  /** Only one trailing slash is removed, so normalisation is idempotent exactly on these paths. */
  lemma {:induction false} NormalizeIdempotentExactly(path: string)
    ensures NormalizePath(NormalizePath(path)) == NormalizePath(path) <==>
            var q := WithLeadingSlash(path); |q| <= 2 || q[|q| - 1] != '/' || q[|q| - 2] != '/'
  {
    var q := WithLeadingSlash(path);
    if |q| > 1 && q[|q| - 1] == '/' {
      var p := q[..|q| - 1];
      assert NormalizePath(path) == p && p[|p| - 1] == q[|q| - 2];
      assert WithLeadingSlash(p) == p;
    }
  }

  /** A segment starts at `i`: not a slash, and preceded by a slash or nothing. */
  predicate SegmentStart(path: string, i: nat)
    requires i < |path|
  {
    path[i] != '/' && (i == 0 || path[i - 1] == '/')
  }

  /** The number of segments that start before `n`. */
  function SegmentsBefore(path: string, n: nat): nat
    requires n <= |path|
  {
    if n == 0 then 0 else SegmentsBefore(path, n - 1) + (if SegmentStart(path, n - 1) then 1 else 0)
  }

  function Segments(path: string): nat { SegmentsBefore(path, |path|) }

  method CountSegments(path: string) returns (count: nat)
    ensures count == Segments(path)
  {
    count := 0;
    var i, n := 0, |path|;
    while i < n
      invariant i <= n && count == SegmentsBefore(path, i)
      invariant 0 < i < n ==> path[i] == '/'
    {
      while i < n && path[i] == '/'
        invariant i <= n && count == SegmentsBefore(path, i)
        invariant i > 0 ==> i == n || path[i] == '/' || path[i - 1] == '/'
      {
        i := i + 1;
      }
      if i >= n { break; }
      count := count + 1;
      i := i + 1;
      while i < n && path[i] != '/'
        invariant 0 < i <= n && count == SegmentsBefore(path, i) && path[i - 1] != '/'
      {
        i := i + 1;
      }
    }
  }

  lemma {:induction false} SegmentsOfPrefix(s: string, t: string, n: nat)
    requires n <= |s|
    ensures SegmentsBefore(s + t, n) == SegmentsBefore(s, n)
    decreases n
  {
    if n > 0 {
      SegmentsOfPrefix(s, t, n - 1);
      assert (s + t)[n - 1] == s[n - 1] && (n > 1 ==> (s + t)[n - 2] == s[n - 2]);
    }
  }

  /** A slash starts no segment. */
  lemma {:induction false} SlashAddsNone(s: string)
    ensures Segments(s + "/") == Segments(s) && Segments("") == 0
  {
    SegmentsOfPrefix(s, "/", |s|);
    assert (s + "/")[|s|] == '/';
  }

  /** A slash-free name after a slash is one segment more. */
  lemma {:induction false} NameAddsOne(s: string, name: string)
    requires name != "" && '/' !in name
    ensures Segments(s + "/" + name) == Segments(s) + 1
    decreases |name|
  {
    var front, last := name[..|name| - 1], name[|name| - 1];
    var t := s + "/" + name;
    assert t == s + "/" + front + [last];
    SegmentsOfPrefix(s + "/" + front, [last], |t| - 1);
    assert t[|t| - 1] == last && last in name;
    if front == "" {
      assert s + "/" + front == s + "/" && t[|t| - 2] == '/';
      SlashAddsNone(s);
    } else {
      NameAddsOne(s, front);
      assert t[|t| - 2] == front[|front| - 1] && front[|front| - 1] in name;
    }
  }

  /** The path of a list of segments. */
  function JoinSegments(names: seq<string>): string {
    if names == [] then "" else JoinSegments(names[..|names| - 1]) + "/" + names[|names| - 1]
  }

  /** The segments of a path are the names between its slashes. */
  lemma {:induction false} SegmentsOfJoin(names: seq<string>)
    requires forall i :: 0 <= i < |names| ==> names[i] != "" && '/' !in names[i]
    ensures Segments(JoinSegments(names)) == |names| == Segments(JoinSegments(names) + "/")
    decreases |names|
  {
    SlashAddsNone(JoinSegments(names));
    if names != [] {
      SegmentsOfJoin(names[..|names| - 1]);
      NameAddsOne(JoinSegments(names[..|names| - 1]), names[|names| - 1]);
    }
  }

  /** What follows a complete segment is counted independently of that segment. */
  lemma {:induction false} SegmentsAfter(s: string, t: string, rest: string, n: nat)
    requires s != "" && t != "" && s[|s| - 1] != '/' && t[|t| - 1] != '/' && n <= |rest|
    requires Segments(s) == Segments(t)
    ensures SegmentsBefore(s + rest, |s| + n) == SegmentsBefore(t + rest, |t| + n)
    decreases n
  {
    if n == 0 {
      SegmentsOfPrefix(s, rest, |s|);
      SegmentsOfPrefix(t, rest, |t|);
    } else {
      SegmentsAfter(s, t, rest, n - 1);
      assert (s + rest)[|s| + n - 1] == rest[n - 1] == (t + rest)[|t| + n - 1];
      if n == 1 {
        assert (s + rest)[|s| - 1] == s[|s| - 1] && (t + rest)[|t| - 1] == t[|t| - 1];
      } else {
        assert (s + rest)[|s| + n - 2] == rest[n - 2] == (t + rest)[|t| + n - 2];
      }
    }
  }

  /** Replacing one whole name by another does not change the number of segments. */
  lemma {:induction false} RenamedSegment(front: string, a: string, b: string, rest: string)
    requires a != "" && '/' !in a && b != "" && '/' !in b
    ensures Segments(front + "/" + a + rest) == Segments(front + "/" + b + rest)
  {
    NameAddsOne(front, a);
    NameAddsOne(front, b);
    assert a[|a| - 1] in a && b[|b| - 1] in b;
    SegmentsAfter(front + "/" + a, front + "/" + b, rest, |rest|);
  }

  // ---- The specificity order ----

  /** Byte-wise string order. */
  predicate LexLess(a: string, b: string) {
    b != "" && (a == "" || a[0] < b[0] || (a[0] == b[0] && LexLess(a[1..], b[1..])))
  }

  lemma {:induction false} LexTotal(a: string, b: string)
    ensures a == b || LexLess(a, b) || LexLess(b, a)
    ensures !(LexLess(a, b) && LexLess(b, a)) && (a == b ==> !LexLess(a, b))
    decreases |a|
  {
    if a != "" && b != "" {
      LexTotal(a[1..], b[1..]);
      if a[0] == b[0] && a[1..] == b[1..] {
        assert a == [a[0]] + a[1..] == b;
      }
    }
  }

  lemma {:induction false} LexTransitive(a: string, b: string, c: string)
    requires LexLess(a, b) && LexLess(b, c)
    ensures LexLess(a, c)
    decreases |a|
  {
    if a != "" && a[0] == b[0] == c[0] {
      LexTransitive(a[1..], b[1..], c[1..]);
    }
  }

  /** The string order: a proper prefix, or a smaller character at the first difference. */
  lemma {:induction false} LexExactly(a: string, b: string)
    ensures LexLess(a, b) <==> exists n: nat :: LexWitness(a, b, n)
    decreases |a|
  {
    if a != "" && b != "" && a[0] == b[0] {
      LexExactly(a[1..], b[1..]);
      if LexLess(a, b) {
        var n: nat :| LexWitness(a[1..], b[1..], n);
        assert a[..n + 1] == [a[0]] + a[1..][..n] == b[..n + 1];
        assert LexWitness(a, b, n + 1);
      }
      if n: nat :| LexWitness(a, b, n) {
        assert n > 0 && a[1..][..n - 1] == a[..n][1..] == b[..n][1..] == b[1..][..n - 1];
        assert LexWitness(a[1..], b[1..], n - 1);
      }
    } else {
      assert LexLess(a, b) ==> LexWitness(a, b, 0);
      if n: nat :| LexWitness(a, b, n) { assert n > 0 ==> a[..n][0] == b[..n][0]; }
    }
  }

  ghost predicate LexWitness(a: string, b: string, n: nat) {
    n <= |a| && n < |b| && a[..n] == b[..n] && (n == |a| || a[n] < b[n])
  }

  /** The sort key of a dynamic route: its pattern and its number of parameters. */
  datatype Rank = Rank(pattern: string, params: nat) {
    function Total(): nat { Segments(pattern) }
    function Specific(): nat { if Total() > params then Total() - params else 0 }
  }

  /** More static segments first, then more segments, then the smaller pattern. */
  predicate Before(a: Rank, b: Rank) {
    if a.Specific() != b.Specific() then a.Specific() > b.Specific()
    else if a.Total() != b.Total() then a.Total() > b.Total()
    else LexLess(a.pattern, b.pattern)
  }

  /** What comes first has more static segments, or as many and more segments, or as many of both and the smaller pattern. */
  lemma {:induction false} BeforeExactly(a: Rank, b: Rank)
    ensures var s, t := Segments(a.pattern) - a.params, Segments(b.pattern) - b.params;
            Before(a, b) <==>
              || (s > t && s > 0)
              || ((s == t || (s <= 0 && t <= 0))
                  && (Segments(a.pattern) > Segments(b.pattern)
                      || (Segments(a.pattern) == Segments(b.pattern) && exists n: nat :: LexWitness(a.pattern, b.pattern, n))))
  {
    LexExactly(a.pattern, b.pattern);
  }

  /** `Before` is a strict weak order that is total across different patterns. */
  lemma {:induction false} BeforeIsStrictTotal(a: Rank, b: Rank)
    ensures !(Before(a, b) && Before(b, a)) && !Before(a, a)
    ensures a.pattern != b.pattern ==> Before(a, b) || Before(b, a)
  {
    LexTotal(a.pattern, b.pattern);
    LexTotal(a.pattern, a.pattern);
  }

  lemma {:induction false} BeforeTransitive(a: Rank, b: Rank, c: Rank)
    requires Before(a, b) && Before(b, c)
    ensures Before(a, c)
  {
    if LexLess(a.pattern, b.pattern) && LexLess(b.pattern, c.pattern) {
      LexTransitive(a.pattern, b.pattern, c.pattern);
    }
  }

  /** Incomparable ranks behave alike, so not-before is transitive too. */
  lemma {:induction false} NotBeforeTransitive(a: Rank, b: Rank, c: Rank)
    requires !Before(b, a) && !Before(c, b)
    ensures !Before(c, a)
  {
    LexTotal(a.pattern, b.pattern);
    LexTotal(b.pattern, c.pattern);
    LexTotal(a.pattern, c.pattern);
    if Before(c, a) {
      if LexLess(c.pattern, a.pattern) && LexLess(a.pattern, b.pattern) {
        LexTransitive(c.pattern, a.pattern, b.pattern);
      }
    }
  }
}

/** Matching a path against a compiled pattern, and the path parameters a match yields. */
module RouteMatch {
  import opened Search
  import opened RoutePattern

  function GroupCount(atoms: seq<Atom>): nat {
    if atoms == [] then 0 else (if atoms[0].Group? then 1 else 0) + GroupCount(atoms[1..])
  }

  /** The string an expression matches when its groups capture `groups`. */
  function Fill(atoms: seq<Atom>, groups: seq<string>): string
    requires |groups| == GroupCount(atoms)
  {
    if atoms == [] then ""
    else if atoms[0].Group? then groups[0] + Fill(atoms[1..], groups[1..])
    else [atoms[0].c] + Fill(atoms[1..], groups)
  }

  /** `groups` is one way in which the expression matches the whole of `s`. */
  ghost predicate Captures(atoms: seq<Atom>, groups: seq<string>, s: string) {
    |groups| == GroupCount(atoms) && ValuesOk(groups) && Fill(atoms, groups) == s
  }

  // ---- Meaning is preserved ----

  lemma {:induction false} FillIsSubstitute(ps: seq<Piece>, values: seq<string>)
    ensures GroupCount(AtomsOf(ps)) == |Names(ps)|
    ensures |values| == |Names(ps)| ==> Fill(AtomsOf(ps), values) == Substitute(ps, values)
    decreases |ps|
  {
    if ps == [] {
      assert AtomsOf(ps) == [];
    } else {
      assert AtomsOf(ps)[1..] == AtomsOf(ps[1..]);
      assert AtomsOf(ps)[0] == AtomOf(ps[0]);
      if ps[0].Param? && values != [] {
        FillIsSubstitute(ps[1..], values[1..]);
      } else {
        FillIsSubstitute(ps[1..], values);
      }
    }
  }

  /**
   Compilation preserves meaning: the compiled expression matches a string with the captures
   `values` if and only if `values` are admissible and the pattern with them substituted is that string.
   */
  lemma {:induction false} CompilationPreservesMeaning(ps: seq<Piece>, values: seq<string>, s: string)
    ensures Captures(AtomsOf(ps), values, s) <==>
            |values| == |Names(ps)| && ValuesOk(values) && Substitute(ps, values) == s
  {
    FillIsSubstitute(ps, values);
  }

  // ---- The matcher ----

  /** How far a greedy group can reach. */
  function SlashFreePrefix(s: string): (n: nat)
    ensures n <= |s| && (forall i :: 0 <= i < n ==> s[i] != '/') && (n < |s| ==> s[n] == '/')
  {
    if s == "" || s[0] == '/' then 0
    else
      var n := SlashFreePrefix(s[1..]) + 1;
      assert n < |s| ==> s[n] == s[1..][n - 1];
      assert forall i :: 1 <= i < n ==> s[i] == s[1..][i - 1];
      n
  }

  /** Backtracking match of the whole of `s`: groups are tried longest first. */
  function Match(atoms: seq<Atom>, s: string): Option<seq<string>>
    decreases |atoms|, |s| + 1
  {
    if atoms == [] then (if s == "" then Some([]) else None)
    else if atoms[0].Lit? then
      if s != "" && s[0] == atoms[0].c then Match(atoms[1..], s[1..]) else None
    else TryGroup(atoms, s, SlashFreePrefix(s))
  }

  function TryGroup(atoms: seq<Atom>, s: string, k: nat): Option<seq<string>>
    requires atoms != [] && atoms[0].Group? && k <= |s|
    decreases |atoms|, k
  {
    if k == 0 then None
    else match Match(atoms[1..], s[k..])
      case Some(groups) => Some([s[..k]] + groups)
      case None => TryGroup(atoms, s, k - 1)
  }

  /** `g` captures at least as much as `h` at the first place where they differ in length. */
  predicate Preferred(g: seq<string>, h: seq<string>)
    requires |g| == |h|
  {
    g == [] || |g[0]| > |h[0]| || (|g[0]| == |h[0]| && Preferred(g[1..], h[1..]))
  }

  lemma {:induction false} MatchIsSound(atoms: seq<Atom>, s: string)
    requires Match(atoms, s).Some?
    ensures Captures(atoms, Match(atoms, s).value, s)
    decreases |atoms|, |s| + 1
  {
    if atoms != [] {
      if atoms[0].Lit? {
        MatchIsSound(atoms[1..], s[1..]);
        assert s == [s[0]] + s[1..];
      } else {
        TryIsSound(atoms, s, SlashFreePrefix(s));
      }
    }
  }

  lemma {:induction false} TryIsSound(atoms: seq<Atom>, s: string, k: nat)
    requires atoms != [] && atoms[0].Group? && k <= SlashFreePrefix(s)
    requires TryGroup(atoms, s, k).Some?
    ensures Captures(atoms, TryGroup(atoms, s, k).value, s)
    decreases |atoms|, k
  {
    if Match(atoms[1..], s[k..]).Some? {
      MatchIsSound(atoms[1..], s[k..]);
      var g := Match(atoms[1..], s[k..]).value;
      CaptureCons(atoms, s[..k], g, s);
    } else {
      TryIsSound(atoms, s, k - 1);
    }
  }

  lemma {:induction false} CaptureCons(atoms: seq<Atom>, v: string, g: seq<string>, s: string)
    requires atoms != [] && atoms[0].Group? && ValueOk(v) && v <= s && Captures(atoms[1..], g, s[|v|..])
    ensures Captures(atoms, [v] + g, s)
  {
    assert ([v] + g)[1..] == g;
    assert s == v + s[|v|..];
  }

  lemma {:induction false} CaptureUncons(atoms: seq<Atom>, groups: seq<string>, s: string)
    requires atoms != [] && atoms[0].Group? && Captures(atoms, groups, s)
    ensures groups != [] && 0 < |groups[0]| <= SlashFreePrefix(s) && groups[0] == s[..|groups[0]|]
    ensures Captures(atoms[1..], groups[1..], s[|groups[0]|..])
  {
    var v, rest := groups[0], Fill(atoms[1..], groups[1..]);
    assert ValueOk(v) && s == v + rest;
    assert s[|v|..] == rest && s[..|v|] == v;
    assert forall i :: 0 <= i < |v| ==> s[i] == v[i];
  }

  /** Complete, and greedy: a match is found whenever there is one, and no other match captures more earlier. */
  lemma {:induction false} MatchIsComplete(atoms: seq<Atom>, groups: seq<string>, s: string)
    requires Captures(atoms, groups, s)
    ensures Match(atoms, s).Some? && |Match(atoms, s).value| == |groups|
    ensures Preferred(Match(atoms, s).value, groups)
    decreases |atoms|, |s| + 1
  {
    if atoms != [] {
      if atoms[0].Lit? {
        var rest := Fill(atoms[1..], groups);
        assert s == [atoms[0].c] + rest;
        assert s[1..] == rest;
        MatchIsComplete(atoms[1..], groups, s[1..]);
      } else {
        CaptureUncons(atoms, groups, s);
        TryIsComplete(atoms, groups, s, SlashFreePrefix(s));
      }
    }
  }

  lemma {:induction false} TryIsComplete(atoms: seq<Atom>, groups: seq<string>, s: string, k: nat)
    requires atoms != [] && atoms[0].Group? && Captures(atoms, groups, s)
    requires groups != [] && |groups[0]| <= k <= SlashFreePrefix(s)
    ensures TryGroup(atoms, s, k).Some? && |TryGroup(atoms, s, k).value| == |groups|
    ensures Preferred(TryGroup(atoms, s, k).value, groups)
    decreases |atoms|, k
  {
    CaptureUncons(atoms, groups, s);
    if |groups[0]| == k {
      MatchIsComplete(atoms[1..], groups[1..], s[k..]);
      var r := TryGroup(atoms, s, k).value;
      assert r[1..] == Match(atoms[1..], s[k..]).value;
    } else if Match(atoms[1..], s[k..]).Some? {
      var g := Match(atoms[1..], s[k..]).value;
      MatchIsSound(atoms[1..], s[k..]);
      assert GroupCount(atoms[1..]) == |groups| - 1;
    } else {
      TryIsComplete(atoms, groups, s, k - 1);
    }
  }

  /** A path matches a pattern if and only if some admissible substitution yields it. */
  lemma {:induction false} MatchExactly(ps: seq<Piece>, s: string)
    ensures Match(AtomsOf(ps), s).Some? <==>
            exists values :: |values| == |Names(ps)| && ValuesOk(values) && Substitute(ps, values) == s
    ensures Match(AtomsOf(ps), s).Some? ==>
              var values := Match(AtomsOf(ps), s).value;
              |values| == |Names(ps)| && ValuesOk(values) && Substitute(ps, values) == s
              && forall i :: 0 <= i < |values| ==> values[i] != "" && '/' !in values[i]
  {
    var atoms := AtomsOf(ps);
    if Match(atoms, s).Some? {
      MatchIsSound(atoms, s);
      CompilationPreservesMeaning(ps, Match(atoms, s).value, s);
    }
    if exists values :: |values| == |Names(ps)| && ValuesOk(values) && Substitute(ps, values) == s {
      var values :| |values| == |Names(ps)| && ValuesOk(values) && Substitute(ps, values) == s;
      CompilationPreservesMeaning(ps, values, s);
      MatchIsComplete(atoms, values, s);
    }
  }

  // ---- Unique captures ----

  /** Every parameter is followed by a slash or by the end of the pattern. */
  predicate EndsSegments(ps: seq<Piece>) {
    forall i :: 0 <= i < |ps| && ps[i].Param? ==> i + 1 == |ps| || ps[i + 1] == Static('/')
  }

  lemma {:induction false} SegmentValuesUnique(ps: seq<Piece>, v: seq<string>, w: seq<string>)
    requires EndsSegments(ps) && |v| == |w| == |Names(ps)| && ValuesOk(v) && ValuesOk(w)
    requires Substitute(ps, v) == Substitute(ps, w)
    ensures v == w
    decreases |ps|
  {
    if ps != [] {
      var rest := ps[1..];
      assert EndsSegments(rest) by {
        forall i | 0 <= i < |rest| && rest[i].Param? ensures i + 1 == |rest| || rest[i + 1] == Static('/') {
          assert ps[i + 1].Param?;
        }
      }
      if ps[0].Static? {
        var a, b := Substitute(rest, v), Substitute(rest, w);
        assert ([ps[0].c] + a)[1..] == a && ([ps[0].c] + b)[1..] == b;
        SegmentValuesUnique(rest, v, w);
      } else {
        var a, b := Substitute(rest, v[1..]), Substitute(rest, w[1..]);
        SegmentEnd(rest, v[1..]);
        SegmentEnd(rest, w[1..]);
        SameSegment(v[0], a, w[0], b);
        SegmentValuesUnique(rest, v[1..], w[1..]);
      }
    }
  }

  lemma {:induction false} SegmentEnd(rest: seq<Piece>, v: seq<string>)
    requires rest == [] || rest[0] == Static('/')
    requires |v| == |Names(rest)|
    ensures Substitute(rest, v) == "" || Substitute(rest, v)[0] == '/'
  {
  }

  /** The first segment of a path is read off the path. */
  lemma {:induction false} SegmentLength(x: string, a: string)
    requires ValueOk(x) && (a == "" || a[0] == '/')
    ensures SlashFreePrefix(x + a) == |x|
  {
    var n := SlashFreePrefix(x + a);
    assert forall i :: 0 <= i < |x| ==> (x + a)[i] == x[i];
    assert a != "" ==> (x + a)[|x|] == '/';
  }

  lemma {:induction false} SameSegment(x: string, a: string, y: string, b: string)
    requires ValueOk(x) && ValueOk(y) && x + a == y + b
    requires (a == "" || a[0] == '/') && (b == "" || b[0] == '/')
    ensures x == y && a == b
  {
    SegmentLength(x, a);
    SegmentLength(y, b);
    assert x == (x + a)[..|x|] == y && a == (x + a)[|x|..] == b;
  }

  // ---- Path parameters ----

  /** Each name maps to the capture at its last position among the first `n`. */
  ghost predicate LastCapture(names: seq<string>, groups: seq<string>, n: nat, params: map<string, string>)
    requires n <= |names| && n <= |groups|
  {
    && (forall i :: 0 <= i < n ==> names[i] in params)
    && (forall name :: name in params ==>
          exists i :: 0 <= i < n && names[i] == name && params[name] == groups[i] &&
            forall j :: i < j < n ==> names[j] != name)
  }

  /** The captures determine the parameters. */
  lemma {:induction false} CapturesUnique(names: seq<string>, groups: seq<string>, n: nat, x: map<string, string>, y: map<string, string>)
    requires n <= |names| && n <= |groups| && LastCapture(names, groups, n, x) && LastCapture(names, groups, n, y)
    ensures x == y
  {
    forall name | name in x ensures name in y && x[name] == y[name] {
      var i :| 0 <= i < n && names[i] == name && x[name] == groups[i] && forall j :: i < j < n ==> names[j] != name;
      var k :| 0 <= k < n && names[k] == name && y[name] == groups[k] && forall j :: k < j < n ==> names[j] != name;
    }
    assert x.Keys == y.Keys;
  }

  /** The loop that pairs captures with parameter names; a repeated name keeps its last capture. */
  method ExtractPathParams(names: seq<string>, groups: seq<string>) returns (params: map<string, string>)
    ensures var n := if |names| <= |groups| then |names| else |groups|; LastCapture(names, groups, n, params)
  {
    params := map[];
    var i := 0;
    while i < |groups| && i < |names|
      invariant i <= |groups| && i <= |names|
      invariant LastCapture(names, groups, i, params)
    {
      ghost var before := params;
      params := params[names[i] := groups[i]];
      forall name | name in params
        ensures exists k :: 0 <= k < i + 1 && names[k] == name && params[name] == groups[k] &&
                  forall j :: k < j < i + 1 ==> names[j] != name
      {
        if name == names[i] {
          assert params[name] == groups[i];
        } else {
          assert name in before;
          var k :| 0 <= k < i && names[k] == name && before[name] == groups[k] &&
                   forall j :: k < j < i ==> names[j] != name;
          assert params[name] == groups[k];
        }
      }
      i := i + 1;
    }
  }

  /** The values a pattern's names have in a parameter map. */
  function ValuesIn(names: seq<string>, params: map<string, string>): seq<string>
    requires forall i :: 0 <= i < |names| ==> names[i] in params
  {
    seq(|names|, i requires 0 <= i < |names| => params[names[i]])
  }

  /**
   Substituting the extracted parameters into the pattern gives the path back, provided equal names
   captured equal values; in particular whenever the names are distinct.
   */
  lemma {:induction false} ExtractedParamsReproducePath(ps: seq<Piece>, s: string, groups: seq<string>, params: map<string, string>)
    requires Captures(AtomsOf(ps), groups, s)
    requires |groups| == |Names(ps)| && LastCapture(Names(ps), groups, |groups|, params)
    requires forall i, j :: 0 <= i < j < |groups| && Names(ps)[i] == Names(ps)[j] ==> groups[i] == groups[j]
    ensures Substitute(ps, ValuesIn(Names(ps), params)) == s
  {
    var names := Names(ps);
    forall i | 0 <= i < |names| ensures params[names[i]] == groups[i] {
      var k :| 0 <= k < |groups| && names[k] == names[i] && params[names[i]] == groups[k] &&
               forall j :: k < j < |groups| ==> names[j] != names[i];
      assert i <= k;
    }
    assert ValuesIn(names, params) == groups;
    CompilationPreservesMeaning(ps, groups, s);
  }
}

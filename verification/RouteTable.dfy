/**
 The route table: static routes by normalised path, dynamic routes kept sorted by specificity.
 Resolution is specified by a plain scan of every registration made so far.
 */
module RouteTable {
  import Sorting
  import opened Search
  import opened RoutePattern
  import opened RouteMatch
  import opened RouteOrder

  /** HTTP methods; `AnyVerb` is `http::verb::unknown`. */
  datatype Verb = AnyVerb | Verb(code: nat)

  type Handler = nat

  datatype Route =
    | StaticRoute(path: string, handler: Handler, verb: Verb)
    | DynamicRoute(pattern: string, handler: Handler, verb: Verb, atoms: seq<Atom>, names: seq<string>)
  {
    predicate MatchesMethod(m: Verb) { verb == AnyVerb || verb == m }

    function Rank(): Rank
      requires DynamicRoute?
    {
      RouteOrder.Rank(pattern, |names|)
    }

    /** A dynamic route holds the compiled form of its own pattern. */
    ghost predicate Ok() {
      StaticRoute? || (Scan(pattern).Pieces? && atoms == AtomsOf(Scan(pattern).pieces)
                       && names == Names(Scan(pattern).pieces))
    }
  }

  /** What resolution returns: a handler, the methods to allow, and the path parameters it stored. */
  datatype Resolution = Resolution(handler: Option<Handler>, allowed: seq<Verb>)

  const NOT_FOUND := Resolution(None, [])

  function Answer(r: Route, m: Verb): (a: Resolution)
    ensures a.handler.Some? <==> r.MatchesMethod(m)
    ensures (a.handler == Some(r.handler) && a.allowed == []) || (a.handler == None && a.allowed == [r.verb])
  {
    if r.MatchesMethod(m) then Resolution(Some(r.handler), []) else Resolution(None, [r.verb])
  }

  // ---- The plain scan ----

  predicate PathMatches(r: Route, key: string) {
    if r.StaticRoute? then r.path == key else Match(r.atoms, key).Some?
  }

  /** `i` is the last static registration for `key`. */
  ghost predicate LastStatic(all: seq<Route>, key: string, i: int) {
    && 0 <= i < |all| && all[i].StaticRoute? && all[i].path == key
    && forall j :: i < j < |all| && all[j].StaticRoute? ==> all[j].path != key
  }

  ghost predicate NoStatic(all: seq<Route>, key: string) {
    forall j :: 0 <= j < |all| && all[j].StaticRoute? ==> all[j].path != key
  }

  /** `i` is a matching dynamic registration, and no matching one is more specific. */
  ghost predicate MostSpecific(all: seq<Route>, key: string, i: int) {
    && 0 <= i < |all| && all[i].DynamicRoute? && PathMatches(all[i], key)
    && forall j :: 0 <= j < |all| && all[j].DynamicRoute? && PathMatches(all[j], key) ==>
         !Before(all[j].Rank(), all[i].Rank())
  }

  ghost predicate NoDynamic(all: seq<Route>, key: string) {
    forall j :: 0 <= j < |all| && all[j].DynamicRoute? ==> !PathMatches(all[j], key)
  }

  /** What a chosen dynamic route sets: its captures by name, when it also has the method. */
  ghost predicate ParamsOf(r: Route, key: string, m: Verb, params: map<string, string>) {
    if r.MatchesMethod(m)
    then
      && r.DynamicRoute? && Match(r.atoms, key).Some?
      && |r.names| == |Match(r.atoms, key).value|
      && LastCapture(r.names, Match(r.atoms, key).value, |r.names|, params)
    else params == map[]
  }

  /** The answers, with path parameters, that a plain scan of the registrations allows. */
  ghost predicate Resolves(all: seq<Route>, key: string, m: Verb, r: Resolution, params: map<string, string>) {
    || (params == map[] && exists i :: LastStatic(all, key, i) && r == Answer(all[i], m))
    || (NoStatic(all, key)
        && exists i :: MostSpecific(all, key, i) && r == Answer(all[i], m) && ParamsOf(all[i], key, m, params))
    || (NoStatic(all, key) && NoDynamic(all, key) && r == NOT_FOUND && params == map[])
  }

  /** At least as many static segments; among equals, at least as many segments; among those, no smaller pattern. */
  ghost predicate AsSpecific(a: Route, b: Route)
    requires a.DynamicRoute? && b.DynamicRoute?
  {
    var m, n := Segments(a.pattern), Segments(b.pattern);
    var s, t := if m > |a.names| then m - |a.names| else 0, if n > |b.names| then n - |b.names| else 0;
    s > t || (s == t && (m > n || (m == n && !exists k: nat :: LexWitness(b.pattern, a.pattern, k))))
  }

  /** The most specific match is the one that is as specific as every other match. */
  lemma {:induction false} MostSpecificExactly(all: seq<Route>, key: string, i: nat)
    requires i < |all| && all[i].DynamicRoute? && PathMatches(all[i], key)
    ensures MostSpecific(all, key, i) <==>
            forall j :: 0 <= j < |all| && all[j].DynamicRoute? && PathMatches(all[j], key) ==> AsSpecific(all[i], all[j])
  {
    forall j | 0 <= j < |all| && all[j].DynamicRoute? ensures !Before(all[j].Rank(), all[i].Rank()) <==> AsSpecific(all[i], all[j]) {
      BeforeExactly(all[j].Rank(), all[i].Rank());
    }
  }

  /** An answer without a static entry is that of a matching dynamic route as specific as every other match. */
  lemma {:induction false} AnswerIsMostSpecific(all: seq<Route>, key: string, m: Verb, r: Resolution, params: map<string, string>)
    returns (i: nat)
    requires Resolves(all, key, m, r, params) && NoStatic(all, key) && !NoDynamic(all, key)
    ensures i < |all| && all[i].DynamicRoute? && PathMatches(all[i], key)
    ensures r == if all[i].verb == AnyVerb || all[i].verb == m then Resolution(Some(all[i].handler), []) else Resolution(None, [all[i].verb])
    ensures forall j :: 0 <= j < |all| && all[j].DynamicRoute? && PathMatches(all[j], key) ==> AsSpecific(all[i], all[j])
  {
    i :| MostSpecific(all, key, i) && r == Answer(all[i], m);
    MostSpecificExactly(all, key, i);
  }

  // ---- Literals before parameters ----

  /** A pattern with a literal, and the same pattern with a whole-segment parameter in its place. */
  function WithLiteral(front: seq<Piece>, text: string, rest: seq<Piece>): string { Spell(front) + "/" + text + Spell(rest) }

  function WithParameter(front: seq<Piece>, name: string, rest: seq<Piece>): string {
    Spell(front) + "/" + ("{" + name + "}") + Spell(rest)
  }

  ghost predicate Replaceable(front: seq<Piece>, text: string, name: string, rest: seq<Piece>) {
    && PiecesOk(front) && PiecesOk(rest)
    && text != "" && '/' !in text && '{' !in text && name != "" && '/' !in name && '}' !in name
  }

  /** A pattern in three parts. */
  lemma {:induction false} Spliced(front: seq<Piece>, mid: seq<Piece>, rest: seq<Piece>)
    requires PiecesOk(front) && PiecesOk(mid) && PiecesOk(rest)
    ensures Scan(Spell(front) + Spell(mid) + Spell(rest)) == Pieces(front + mid + rest)
    ensures Names(front + mid + rest) == Names(front) + Names(mid) + Names(rest)
  {
    ConcatMapAppend(SpellPiece, front + mid, rest);
    ConcatMapAppend(SpellPiece, front, mid);
    ConcatMapAppend(NamePiece, front + mid, rest);
    ConcatMapAppend(NamePiece, front, mid);
    AcceptedExactly(Spell(front) + Spell(mid) + Spell(rest), front + mid + rest);
  }

  lemma {:induction false} NamesOfLiteral(front: seq<Piece>, text: string, name: string, rest: seq<Piece>)
    requires Replaceable(front, text, name, rest)
    ensures Scan(WithLiteral(front, text, rest)).Pieces?
    ensures Names(Scan(WithLiteral(front, text, rest)).pieces) == Names(front) + Names(rest)
  {
    var mid := Statics("/" + text);
    StaticRun("/" + text);
    Spliced(front, mid, rest);
    Regroup(Spell(front), "/", text);
    assert Names(front) + [] == Names(front);
  }

  lemma {:induction false} NamesOfParameter(front: seq<Piece>, text: string, name: string, rest: seq<Piece>)
    requires Replaceable(front, text, name, rest)
    ensures Scan(WithParameter(front, name, rest)).Pieces?
    ensures |Names(Scan(WithParameter(front, name, rest)).pieces)| == |Names(front)| + 1 + |Names(rest)|
  {
    var mid := [Static('/')] + [Param(name)];
    SlashAndParameter(name);
    Spliced(front, mid, rest);
    Regroup(Spell(front), "/", "{" + name + "}");
  }

  lemma {:induction false} SlashAndParameter(name: string)
    ensures Spell([Static('/')] + [Param(name)]) == "/" + ("{" + name + "}")
    ensures Names([Static('/')] + [Param(name)]) == [name]
  {
    ConcatMapAppend(SpellPiece, [Static('/')], [Param(name)]);
    ConcatMapAppend(NamePiece, [Static('/')], [Param(name)]);
    ConcatMapOne(SpellPiece, Static('/'));
    ConcatMapOne(SpellPiece, Param(name));
    ConcatMapOne(NamePiece, Static('/'));
    ConcatMapOne(NamePiece, Param(name));
  }

  /**
   Exactly when the literal is preferred: some segment of its pattern is static, or its pattern is the
   smaller string. The first fails only for patterns with as many parameters as segments.
   */
  lemma {:induction false} LiteralFirstExactly(front: seq<Piece>, text: string, name: string, rest: seq<Piece>)
    requires Replaceable(front, text, name, rest)
    ensures var p, q, n := WithLiteral(front, text, rest), WithParameter(front, name, rest), |Names(front)| + |Names(rest)|;
            Before(RouteOrder.Rank(p, n), RouteOrder.Rank(q, n + 1)) <==> n < Segments(p) || exists k: nat :: LexWitness(p, q, k)
  {
    var p, q, n := WithLiteral(front, text, rest), WithParameter(front, name, rest), |Names(front)| + |Names(rest)|;
    assert '/' !in "{" + name + "}";
    RenamedSegment(Spell(front), text, "{" + name + "}", Spell(rest));
    BeforeExactly(RouteOrder.Rank(p, n), RouteOrder.Rank(q, n + 1));
  }

  /** Where both match, the route with the parameter is not chosen. */
  lemma {:induction false} LiteralBeatsParameter(all: seq<Route>, key: string, i: nat, j: nat,
                                                 front: seq<Piece>, text: string, name: string, rest: seq<Piece>)
    requires Replaceable(front, text, name, rest) && i < |all| && j < |all|
    requires all[i].DynamicRoute? && all[i].Ok() && all[i].pattern == WithLiteral(front, text, rest)
    requires all[j].DynamicRoute? && all[j].Ok() && all[j].pattern == WithParameter(front, name, rest)
    requires PathMatches(all[i], key) && |all[i].names| < Segments(all[i].pattern)
    ensures !MostSpecific(all, key, j)
  {
    NamesOfLiteral(front, text, name, rest);
    NamesOfParameter(front, text, name, rest);
    LiteralFirstExactly(front, text, name, rest);
    assert Before(all[i].Rank(), all[j].Rank());
  }

  /** For example `/users/{id}` comes before `/{a}/{b}`. */
  lemma {:induction false} UsersById()
    ensures Before(RouteOrder.Rank("/users/{id}", 1), RouteOrder.Rank("/{a}/{b}", 2))
  {
    var p, q := ["users", "{id}"], ["{a}", "{b}"];
    assert JoinSegments(p[..1]) == "/users" by { assert p[..1][..0] == []; }
    assert JoinSegments(q[..1]) == "/{a}" by { assert q[..1][..0] == []; }
    assert JoinSegments(p) == "/users/{id}" && JoinSegments(q) == "/{a}/{b}";
    SegmentsOfJoin(p);
    SegmentsOfJoin(q);
  }

  // ---- Independence of the registration order ----

  /** No two dynamic registrations share a pattern and no two static ones a path. */
  ghost predicate Distinct(all: seq<Route>) {
    forall i, j :: 0 <= i < j < |all| ==>
      && (all[i].DynamicRoute? && all[j].DynamicRoute? ==> all[i].pattern != all[j].pattern)
      && (all[i].StaticRoute? && all[j].StaticRoute? ==> all[i].path != all[j].path)
  }

  lemma {:induction false} SameMembers(a: seq<Route>, b: seq<Route>, i: nat) returns (j: nat)
    requires multiset(a) == multiset(b) && i < |a|
    ensures j < |b| && b[j] == a[i]
  {
    assert a[i] in multiset(a);
    j :| 0 <= j < |b| && b[j] == a[i];
  }

  /** In any order of the same registrations, the entry chosen for a key is the same route. */
  lemma {:induction false} StaticChoiceAgrees(a: seq<Route>, b: seq<Route>, key: string, i: nat, k: nat)
    requires multiset(a) == multiset(b) && Distinct(b)
    requires LastStatic(a, key, i) && LastStatic(b, key, k)
    ensures a[i] == b[k]
  {
    var j := SameMembers(a, b, i);
  }

  lemma {:induction false} DynamicChoiceAgrees(a: seq<Route>, b: seq<Route>, key: string, i: nat, k: nat)
    requires multiset(a) == multiset(b) && Distinct(b)
    requires MostSpecific(a, key, i) && MostSpecific(b, key, k)
    ensures a[i] == b[k]
  {
    var j := SameMembers(a, b, i);
    var l := SameMembers(b, a, k);
    assert !Before(b[j].Rank(), b[k].Rank()) && !Before(a[l].Rank(), a[i].Rank());
    BeforeIsStrictTotal(b[j].Rank(), b[k].Rank());
    assert b[j].pattern == b[k].pattern;
  }

  lemma {:induction false} AbsenceAgrees(a: seq<Route>, b: seq<Route>, key: string)
    requires multiset(a) == multiset(b)
    ensures NoStatic(a, key) ==> NoStatic(b, key)
    ensures NoDynamic(a, key) ==> NoDynamic(b, key)
  {
    forall j | 0 <= j < |b| ensures b[j] in a {
      var i := SameMembers(b, a, j);
    }
  }

  /**
   Resolution does not depend on the order of registration: the answers allowed for two orders of
   the same distinct registrations are equal, for every path and method.
   */
  lemma {:induction false} OrderIndependence(a: seq<Route>, b: seq<Route>, key: string, m: Verb,
                          r: Resolution, x: map<string, string>, s: Resolution, y: map<string, string>)
    requires multiset(a) == multiset(b) && Distinct(b)
    requires Resolves(a, key, m, r, x) && Resolves(b, key, m, s, y)
    ensures r == s && x == y
  {
    AbsenceAgrees(a, b, key);
    AbsenceAgrees(b, a, key);
    if exists i :: LastStatic(a, key, i) && r == Answer(a[i], m) {
      var i :| LastStatic(a, key, i) && r == Answer(a[i], m);
      assert !NoStatic(a, key);
      var k :| LastStatic(b, key, k) && s == Answer(b[k], m);
      StaticChoiceAgrees(a, b, key, i, k);
    } else if exists i :: MostSpecific(a, key, i) && r == Answer(a[i], m) {
      var i :| MostSpecific(a, key, i) && r == Answer(a[i], m) && ParamsOf(a[i], key, m, x);
      assert !NoDynamic(a, key) && NoStatic(b, key);
      var k :| MostSpecific(b, key, k) && s == Answer(b[k], m) && ParamsOf(b[k], key, m, y);
      DynamicChoiceAgrees(a, b, key, i, k);
      if a[i].MatchesMethod(m) { CapturesUnique(a[i].names, Match(a[i].atoms, key).value, |a[i].names|, x, y); }
    }
  }

  /** Every answer is a handler, one allowed method, or neither. */
  lemma {:induction false} OneOutcome(all: seq<Route>, key: string, m: Verb, r: Resolution, params: map<string, string>)
    requires Resolves(all, key, m, r, params)
    ensures (r.handler.Some? && r.allowed == []) || (r.handler.None? && |r.allowed| <= 1)
    ensures r.handler.Some? ==>
              exists i :: 0 <= i < |all| && PathMatches(all[i], key) && r.handler == Some(all[i].handler)
                          && (all[i].verb == AnyVerb || all[i].verb == m)
    ensures r.allowed != [] ==>
              exists i :: 0 <= i < |all| && PathMatches(all[i], key) && r.allowed == [all[i].verb]
                          && all[i].verb != AnyVerb && all[i].verb != m
    ensures (r == NOT_FOUND <==> NoStatic(all, key) && NoDynamic(all, key))
  {
    if NoStatic(all, key) && NoDynamic(all, key) {
      assert forall i :: !LastStatic(all, key, i) && !MostSpecific(all, key, i);
    }
  }

  // ---- The table ----

  function StaticIndex(all: seq<Route>): map<string, Route> {
    if all == [] then map[]
    else
      var r, m := all[|all| - 1], StaticIndex(all[..|all| - 1]);
      if r.StaticRoute? then m[r.path := r] else m
  }

  function Dynamics(all: seq<Route>): seq<Route> {
    if all == [] then []
    else
      var r, ds := all[|all| - 1], Dynamics(all[..|all| - 1]);
      if r.DynamicRoute? then ds + [r] else ds
  }

  ghost predicate AllDynamic(rs: seq<Route>) { forall i :: 0 <= i < |rs| ==> rs[i].DynamicRoute? }

  /** No later route is more specific than an earlier one. */
  ghost predicate Sorted(rs: seq<Route>) {
    AllDynamic(rs) && forall i, j :: 0 <= i < j < |rs| ==> !Before(rs[j].Rank(), rs[i].Rank())
  }

  lemma {:induction false} DynamicsMembers(all: seq<Route>, r: Route)
    ensures r in Dynamics(all) <==> r in all && r.DynamicRoute?
    decreases |all|
  {
    if all != [] {
      var front, last := all[..|all| - 1], all[|all| - 1];
      DynamicsMembers(front, r);
      assert all == front + [last];
    }
  }

  lemma {:induction false} IndexHoldsLast(all: seq<Route>, key: string)
    ensures key in StaticIndex(all) ==> exists i :: LastStatic(all, key, i) && all[i] == StaticIndex(all)[key]
    ensures key !in StaticIndex(all) ==> NoStatic(all, key)
    decreases |all|
  {
    if all != [] {
      var n := |all| - 1;
      var front := all[..n];
      IndexHoldsLast(front, key);
      if all[n].StaticRoute? && all[n].path == key {
        assert LastStatic(all, key, n);
      } else if key in StaticIndex(all) {
        var i :| LastStatic(front, key, i) && front[i] == StaticIndex(front)[key];
        assert LastStatic(all, key, i);
      }
    }
  }

  /** Where the scan of the sorted dynamic routes stops. */
  lemma {:induction false} FirstMatchIsMostSpecific(all: seq<Route>, ds: seq<Route>, key: string, k: nat) returns (i: nat)
    requires multiset(ds) == multiset(Dynamics(all)) && Sorted(ds)
    requires k < |ds| && PathMatches(ds[k], key) && forall j :: 0 <= j < k ==> !PathMatches(ds[j], key)
    ensures MostSpecific(all, key, i) && all[i] == ds[k]
  {
    var d := SameMembers(ds, Dynamics(all), k);
    DynamicsMembers(all, ds[k]);
    i :| 0 <= i < |all| && all[i] == ds[k];
    forall j | 0 <= j < |all| && all[j].DynamicRoute? && PathMatches(all[j], key)
      ensures !Before(all[j].Rank(), all[i].Rank())
    {
      DynamicsMembers(all, all[j]);
      var p :| 0 <= p < |Dynamics(all)| && Dynamics(all)[p] == all[j];
      var l := SameMembers(Dynamics(all), ds, p);
      BeforeIsStrictTotal(ds[k].Rank(), ds[k].Rank());
      assert k <= l;
    }
  }

  lemma {:induction false} NoMatchMeansNone(all: seq<Route>, ds: seq<Route>, key: string)
    requires multiset(ds) == multiset(Dynamics(all))
    requires forall j :: 0 <= j < |ds| ==> !PathMatches(ds[j], key)
    ensures NoDynamic(all, key)
  {
    forall j | 0 <= j < |all| && all[j].DynamicRoute? ensures !PathMatches(all[j], key) {
      DynamicsMembers(all, all[j]);
      var p :| 0 <= p < |Dynamics(all)| && Dynamics(all)[p] == all[j];
      var l := SameMembers(Dynamics(all), ds, p);
    }
  }

  /** The two indexes agree with the registrations. */
  ghost predicate Indexed(all: seq<Route>, statics: map<string, Route>, ds: seq<Route>) {
    && statics == StaticIndex(all)
    && multiset(ds) == multiset(Dynamics(all))
    && Sorted(ds)
    && forall i :: 0 <= i < |all| ==> all[i].Ok()
  }

  lemma {:induction false} IndexedAfterDynamic(all: seq<Route>, statics: map<string, Route>, ds: seq<Route>, r: Route, sorted: seq<Route>)
    requires Indexed(all, statics, ds) && r.DynamicRoute? && r.Ok()
    requires Sorted(sorted) && multiset(sorted) == multiset(ds + [r])
    ensures Indexed(all + [r], statics, sorted)
  {
    assert (all + [r])[..|all|] == all;
    assert multiset(Dynamics(all) + [r]) == multiset(Dynamics(all)) + multiset{r};
  }

  class Table {
    var staticRoutes: map<string, Route>
    var dynamicRoutes: seq<Route>
    var allRoutes: seq<Route>

    ghost predicate Valid()
      reads this
    {
      Indexed(allRoutes, staticRoutes, dynamicRoutes)
    }

    constructor ()
      ensures Valid() && allRoutes == []
    {
      staticRoutes, dynamicRoutes, allRoutes := map[], [], [];
    }

    method AddStaticRoute(path: string, verb: Verb, handler: Handler)
      requires Valid()
      modifies this
      ensures Valid()
      ensures allRoutes == old(allRoutes) + [StaticRoute(NormalizePath(path), handler, verb)]
    {
      var key := NormalizePath(path);
      var route := StaticRoute(key, handler, verb);
      staticRoutes := staticRoutes[key := route];
      allRoutes := allRoutes + [route];
      assert allRoutes[..|allRoutes| - 1] == old(allRoutes);
    }

    /** Registers a pattern and re-sorts, or rejects it and leaves the table as it was. */
    method AddDynamicRoute(pattern: string, verb: Verb, handler: Handler) returns (error: Option<PatternError>)
      requires Valid()
      modifies this
      ensures Valid()
      ensures match Scan(pattern)
              case Bad(e) => error == Some(e) && allRoutes == old(allRoutes)
                             && dynamicRoutes == old(dynamicRoutes) && staticRoutes == old(staticRoutes)
              case Pieces(ps) => error == None && staticRoutes == old(staticRoutes)
                                 && allRoutes == old(allRoutes) + [DynamicRoute(pattern, handler, verb, AtomsOf(ps), Names(ps))]
    {
      var compiled := ParsePattern(pattern);
      if compiled.Rejected? { return Some(compiled.error); }
      var route := DynamicRoute(pattern, handler, verb, ReadRegex(compiled.text).value, compiled.names);
      var sorted := SortBySpecificity(dynamicRoutes + [route]);
      IndexedAfterDynamic(allRoutes, staticRoutes, dynamicRoutes, route, sorted);
      dynamicRoutes := sorted;
      allRoutes := allRoutes + [route];
      return None;
    }

    /** Static routes first, then the first dynamic route whose path matches. */
    method Resolve(path: string, m: Verb) returns (r: Resolution, params: map<string, string>)
      requires Valid()
      ensures Resolves(allRoutes, NormalizePath(path), m, r, params)
    {
      var key := NormalizePath(path);
      params := map[];
      IndexHoldsLast(allRoutes, key);
      if key in staticRoutes {
        return Answer(staticRoutes[key], m), params;
      }
      var k := 0;
      while k < |dynamicRoutes| && !PathMatches(dynamicRoutes[k], key)
        invariant k <= |dynamicRoutes|
        invariant forall j :: 0 <= j < k ==> !PathMatches(dynamicRoutes[j], key)
      {
        k := k + 1;
      }
      if k == |dynamicRoutes| {
        NoMatchMeansNone(allRoutes, dynamicRoutes, key);
        return NOT_FOUND, params;
      }
      var route := dynamicRoutes[k];
      ghost var i := FirstMatchIsMostSpecific(allRoutes, dynamicRoutes, key, k);
      r := Answer(route, m);
      if route.MatchesMethod(m) {
        CaptureCount(route, key);
        params := ExtractPathParams(route.names, Match(route.atoms, key).value);
      }
      assert ParamsOf(allRoutes[i], key, m, params);
    }

    method Clear()
      modifies this
      ensures Valid() && allRoutes == []
    {
      staticRoutes, dynamicRoutes, allRoutes := map[], [], [];
    }
  }

  lemma {:induction false} CaptureCount(r: Route, key: string)
    requires r.DynamicRoute? && r.Ok() && Match(r.atoms, key).Some?
    ensures |r.names| == |Match(r.atoms, key).value|
  {
    MatchExactly(Scan(r.pattern).pieces, key);
  }

  predicate RouteBefore(a: Route, b: Route) {
    a.DynamicRoute? && b.DynamicRoute? && Before(a.Rank(), b.Rank())
  }

  lemma {:induction false} SpecificityIsWeakOrder(rs: seq<Route>)
    requires AllDynamic(rs)
    ensures Sorting.IsWeakOrder(RouteBefore, rs)
  {
    forall a, b | a in rs && b in rs && RouteBefore(a, b) ensures !RouteBefore(b, a) {
      BeforeIsStrictTotal(a.Rank(), b.Rank());
    }
    forall a, b, c | a in rs && b in rs && c in rs && !RouteBefore(b, a) && !RouteBefore(c, b) ensures !RouteBefore(c, a) {
      NotBeforeTransitive(a.Rank(), b.Rank(), c.Rank());
    }
  }

  /** Sorts by specificity; the order of equally ranked routes is not promised. */
  method SortBySpecificity(rs: seq<Route>) returns (sorted: seq<Route>)
    requires AllDynamic(rs)
    ensures Sorted(sorted) && multiset(sorted) == multiset(rs)
  {
    SpecificityIsWeakOrder(rs);
    sorted := Sorting.Sort(RouteBefore, rs);
    forall i | 0 <= i < |sorted| ensures sorted[i].DynamicRoute? {
      assert sorted[i] in multiset(rs);
    }
    forall i, j | 0 <= i < j < |sorted| ensures !Before(sorted[j].Rank(), sorted[i].Rank()) {
      assert !RouteBefore(sorted[j], sorted[i]);
    }
  }
}

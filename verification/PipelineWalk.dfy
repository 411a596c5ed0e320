/**
 Which positions of a pipeline one request visits. Every call of `next` (and every report of
 `Continue`) is a permission to take one more position; a visited body spends one and grants as
 many as it makes. This gives both executions a closed form.
 */
module PipelineWalk {
  import opened PipelineProtocol
  import opened Search

  /** What a middleware body does, in order. */
  datatype Action = CallNext | ReportResult(result: Result) | ThrowError

  datatype Middleware = Middleware(priority: int, eligible: bool, body: seq<Action>)

  /** The actions before the first throw. */
  function Performed(body: seq<Action>): seq<Action> {
    if body == [] || body[0].ThrowError? then [] else [body[0]] + Performed(body[1..])
  }

  predicate Throws(body: seq<Action>) { ThrowError in body }

  /** Does the action ask for another position? Reports exist only in asynchronous execution. */
  predicate Advances(a: Action, async: bool) {
    a == CallNext || (async && a == ReportResult(Continue))
  }

  /** How many positions the first `n` actions ask for. */
  function AskedBy(body: seq<Action>, async: bool, n: nat): nat
    requires n <= |body|
  {
    if n == 0 then 0 else AskedBy(body, async, n - 1) + One(Advances(body[n - 1], async))
  }

  function Asks(m: Middleware, async: bool): nat { Asked(Script(m), async) }

  function Asked(acts: seq<Action>, async: bool): nat { AskedBy(acts, async, |acts|) }

  /** What a body does, up to and including its throw. */
  function Script(m: Middleware): seq<Action> {
    Performed(m.body) + if Throws(m.body) then [ThrowError] else []
  }

  /** The results by which a body ends the run: `Error` when it throws, and its reports other than `Continue`. */
  ghost function Ends(m: Middleware): set<Result> { EndsAmong(Script(m)) }

  ghost function EndsAmong(acts: seq<Action>): set<Result> {
    set r: Result | (r != Continue && ReportResult(r) in acts) || (r == Error && ThrowError in acts)
  }

  ghost function EndsBy(a: Action): set<Result> {
    match a
    case CallNext => {}
    case ReportResult(r) => if r == Continue then {} else {r}
    case ThrowError => {Error}
  }

  lemma {:induction false} EndsAmongAppend(a: seq<Action>, b: seq<Action>)
    ensures EndsAmong(a + b) == EndsAmong(a) + EndsAmong(b)
  {
  }

  lemma {:induction false} EndsAmongCons(acts: seq<Action>)
    requires acts != []
    ensures EndsAmong(acts) == EndsBy(acts[0]) + EndsAmong(acts[1..])
  {
    assert acts == [acts[0]] + acts[1..];
    EndsAmongAppend([acts[0]], acts[1..]);
  }

  lemma {:induction false} AskedAppend(a: seq<Action>, b: seq<Action>, async: bool)
    ensures Asked(a + b, async) == Asked(a, async) + Asked(b, async)
    decreases |b|
  {
    if b == [] {
      assert a + b == a;
    } else {
      var n := |b| - 1;
      AskedAppend(a, b[..n], async);
      AskedBySame(a + b, a + b[..n], async, |a| + n);
      AskedBySame(b, b[..n], async, n);
    }
  }

  lemma {:induction false} AskedCons(acts: seq<Action>, async: bool)
    requires acts != []
    ensures Asked(acts, async) == One(Advances(acts[0], async)) + Asked(acts[1..], async)
  {
    assert acts == [acts[0]] + acts[1..];
    AskedAppend([acts[0]], acts[1..], async);
    assert AskedBy([acts[0]], async, 1) == AskedBy([acts[0]], async, 0) + One(Advances(acts[0], async));
  }

  // ---- The walk ----

  /** What a position means to the walk: skipped, or visited and then asking for more positions. */
  datatype Grant = Skip | Visit(asks: nat)

  function GrantOf(m: Middleware, async: bool): Grant { if m.eligible then Visit(Asks(m, async)) else Skip }

  function Grants(p: seq<Middleware>, async: bool): seq<Grant> {
    seq(|p|, i requires 0 <= i < |p| => GrantOf(p[i], async))
  }

  /** Positions visited, the index reached, and the permissions left over at the end of the pipeline. */
  datatype Walk = Walk(visits: seq<nat>, reach: nat, left: nat)

  function WalkFrom(g: seq<Grant>, i: nat, permits: nat): (w: Walk)
    requires i <= |g|
    ensures i <= w.reach <= |g|
    ensures w.left > 0 ==> w.reach == |g|
    decreases |g| - i
  {
    if permits == 0 then Walk([], i, 0)
    else if i == |g| then Walk([], i, permits)
    else if !g[i].Visit? then WalkFrom(g, i + 1, permits)
    else
      var w := WalkFrom(g, i + 1, permits - 1 + g[i].asks);
      w.(visits := [i] + w.visits)
  }

  /** One step of the walk, at an eligible or a skipped position. */
  lemma {:induction false} WalkStep(g: seq<Grant>, i: nat, permits: nat)
    requires i < |g| && permits > 0
    ensures var w := WalkFrom(g, i + 1, if g[i].Visit? then permits - 1 + g[i].asks else permits);
            WalkFrom(g, i, permits) == if g[i].Visit? then w.(visits := [i] + w.visits) else w
  {
  }

  /** Spending permissions in two portions is spending them together. */
  lemma {:induction false} WalkInTwo(g: seq<Grant>, i: nat, a: nat, b: nat)
    requires i <= |g|
    ensures var u := WalkFrom(g, i, a);
            var v := WalkFrom(g, u.reach, b);
            WalkFrom(g, i, a + b) == Walk(u.visits + v.visits, v.reach, u.left + v.left)
    decreases |g| - i
  {
    if a == 0 || i == |g| {
      var v := WalkFrom(g, i, b);
      assert [] + v.visits == v.visits;
    } else if !g[i].Visit? {
      WalkInTwo(g, i + 1, a, b);
    } else {
      var n := g[i].asks;
      WalkInTwo(g, i + 1, a - 1 + n, b);
      var u := WalkFrom(g, i + 1, a - 1 + n);
      var v := WalkFrom(g, u.reach, b);
      assert [i] + (u.visits + v.visits) == ([i] + u.visits) + v.visits;
    }
  }

  // ---- Closed forms ----

  /** The eligible positions from `i` up to but excluding `end`. */
  function EligibleIn(g: seq<Grant>, i: nat, end: nat): seq<nat>
    requires i <= end <= |g|
    decreases end - i
  {
    if i == end then [] else (if g[i].Visit? then [i] else []) + EligibleIn(g, i + 1, end)
  }

  /** Permissions granted beyond those spent by the eligible positions from `i` up to `end`. */
  function Surplus(g: seq<Grant>, i: nat, end: nat): int
    requires i <= end <= |g|
    decreases end - i
  {
    if i == end then 0
    else (if g[i].Visit? then g[i].asks - 1 else 0) + Surplus(g, i + 1, end)
  }

  /** A permission is there when each eligible position is reached. */
  ghost predicate NeverStarved(g: seq<Grant>, i: nat, permits: nat)
    requires i <= |g|
  {
    forall k :: i <= k < |g| && g[k].Visit? ==> permits + Surplus(g, i, k) >= 1
  }

  lemma {:induction false} EligibleMember(g: seq<Grant>, i: nat, end: nat, k: nat)
    requires i <= end <= |g|
    ensures k in EligibleIn(g, i, end) <==> i <= k < end && g[k].Visit?
    decreases end - i
  {
    if i < end { EligibleMember(g, i + 1, end, k); }
  }

  lemma {:induction false} SurplusPositive(g: seq<Grant>, i: nat, k: nat)
    requires i <= k <= |g|
    requires forall j :: i <= j < k && g[j].Visit? ==> g[j].asks >= 1
    ensures Surplus(g, i, k) >= 0
    decreases k - i
  {
    if i < k { SurplusPositive(g, i + 1, k); }
  }

  /** All eligible positions are visited, exactly when the walk is never starved. */
  lemma {:induction false} VisitsAllExactly(g: seq<Grant>, i: nat, permits: nat)
    requires i <= |g|
    ensures WalkFrom(g, i, permits).visits == EligibleIn(g, i, |g|) <==> NeverStarved(g, i, permits)
    decreases |g| - i
  {
    if i < |g| {
      if !g[i].Visit? {
        if permits > 0 { VisitsAllExactly(g, i + 1, permits); } else { StarvedAtZero(g, i); }
        ShiftStarved(g, i, permits);
      } else if permits == 0 {
        assert Surplus(g, i, i) == 0;
      } else {
        var next := permits - 1 + g[i].asks;
        VisitsAllExactly(g, i + 1, next);
        ShiftStarved(g, i, permits);
        var w := WalkFrom(g, i + 1, next);
        assert ([i] + w.visits)[1..] == w.visits;
        assert ([i] + EligibleIn(g, i + 1, |g|))[1..] == EligibleIn(g, i + 1, |g|);
      }
    }
  }

  lemma {:induction false} ShiftStarved(g: seq<Grant>, i: nat, permits: nat)
    requires i < |g| && (g[i].Visit? ==> permits > 0)
    ensures NeverStarved(g, i, permits) <==>
            NeverStarved(g, i + 1, if g[i].Visit? then permits - 1 + g[i].asks else permits)
  {
    var step := if g[i].Visit? then g[i].asks - 1 else 0;
    assert forall k :: i + 1 <= k <= |g| ==> Surplus(g, i, k) == step + Surplus(g, i + 1, k);
    assert Surplus(g, i, i) == 0;
  }

  /** With nothing to spend, the walk is starved at the first eligible position, if any. */
  lemma {:induction false} StarvedAtZero(g: seq<Grant>, i: nat)
    requires i <= |g|
    ensures EligibleIn(g, i, |g|) == [] <==> NeverStarved(g, i, 0)
    decreases |g| - i
  {
    if i < |g| {
      if g[i].Visit? {
        assert Surplus(g, i, i) == 0;
      } else {
        StarvedAtZero(g, i + 1);
        ShiftStarved(g, i, 0);
      }
    }
  }

  /** When every eligible body asks for at least one more, all are visited and a permission is left. */
  lemma {:induction false} GenerousVisitsAll(g: seq<Grant>, i: nat, permits: nat)
    requires i <= |g| && permits >= 1
    requires forall k :: i <= k < |g| && g[k].Visit? ==> g[k].asks >= 1
    ensures WalkFrom(g, i, permits).visits == EligibleIn(g, i, |g|)
    ensures WalkFrom(g, i, permits).reach == |g| && WalkFrom(g, i, permits).left >= 1
    decreases |g| - i
  {
    if i < |g| {
      GenerousVisitsAll(g, i + 1, if g[i].Visit? then permits - 1 + g[i].asks else permits);
    }
  }

  /**
   The walk up to a silent position `j`, one whose body never asks for more, when every earlier
   eligible body does: it arrives with the surplus of the earlier ones.
   */
  lemma {:induction false} WalkToSilent(g: seq<Grant>, i: nat, j: nat, permits: nat)
    requires i <= j < |g| && permits >= 1 && g[j].Visit? && g[j].asks == 0
    requires forall k :: i <= k < j && g[k].Visit? ==> g[k].asks >= 1
    ensures var rest := permits + Surplus(g, i, j) - 1;
            && rest >= 0
            && WalkFrom(g, i, permits).visits ==
               EligibleIn(g, i, j + 1) + WalkFrom(g, j + 1, rest).visits
    decreases j - i
  {
    var permits' := if g[i].Visit? then permits - 1 + g[i].asks else permits;
    if i == j {
      assert EligibleIn(g, j + 1, j + 1) == [];
      StepBack(g, j, j + 1, permits, WalkFrom(g, j + 1, permits').visits);
    } else {
      WalkToSilent(g, i + 1, j, permits');
      var rest := permits' + Surplus(g, i + 1, j) - 1;
      assert rest == permits + Surplus(g, i, j) - 1;
      StepBack(g, i, j + 1, permits, WalkFrom(g, j + 1, rest).visits);
    }
  }

  /** What is known of the walk from the next position, seen from this one. */
  lemma {:induction false} StepBack(g: seq<Grant>, i: nat, end: nat, permits: nat, tail: seq<nat>)
    requires i < end <= |g| && permits >= 1
    requires WalkFrom(g, i + 1, if g[i].Visit? then permits - 1 + g[i].asks else permits).visits == EligibleIn(g, i + 1, end) + tail
    ensures WalkFrom(g, i, permits).visits == EligibleIn(g, i, end) + tail
  {
    WalkStep(g, i, permits);
    Regroup(if g[i].Visit? then [i] else [], EligibleIn(g, i + 1, end), tail);
  }

  lemma {:induction false} VisitsNothingExactly(g: seq<Grant>, i: nat, permits: nat)
    requires i <= |g|
    ensures WalkFrom(g, i, permits).visits == [] <==> permits == 0 || EligibleIn(g, i, |g|) == []
    decreases |g| - i
  {
    if permits > 0 && i < |g| && !g[i].Visit? {
      VisitsNothingExactly(g, i + 1, permits);
    }
  }

  lemma {:induction false} SurplusZeroExactly(g: seq<Grant>, i: nat, j: nat)
    requires i <= j <= |g|
    requires forall k :: i <= k < j && g[k].Visit? ==> g[k].asks >= 1
    ensures Surplus(g, i, j) == 0 <==> forall k :: i <= k < j && g[k].Visit? ==> g[k].asks == 1
    decreases j - i
  {
    if i < j {
      SurplusPositive(g, i + 1, j);
      SurplusZeroExactly(g, i + 1, j);
    }
  }

  /**
   A synchronous request stops at the first body that never calls `next`, exactly when no earlier
   body calls it twice or nothing eligible follows; otherwise an outer frame resumes the pipeline.
   */
  lemma {:induction false} StopsAtFirstSilentExactly(g: seq<Grant>, j: nat)
    requires j < |g| && g[j].Visit? && g[j].asks == 0
    requires forall k :: 0 <= k < j && g[k].Visit? ==> g[k].asks >= 1
    ensures WalkFrom(g, 0, 1).visits == EligibleIn(g, 0, j + 1) <==>
            (forall k :: 0 <= k < j && g[k].Visit? ==> g[k].asks == 1) || EligibleIn(g, j + 1, |g|) == []
  {
    WalkToSilent(g, 0, j, 1);
    SurplusZeroExactly(g, 0, j);
    var rest := Surplus(g, 0, j);
    var tail := WalkFrom(g, j + 1, rest).visits;
    VisitsNothingExactly(g, j + 1, rest);
    var up := EligibleIn(g, 0, j + 1);
    assert |up + tail| == |up| + |tail|;
    assert up + tail == up <==> tail == [] by { if tail == [] { assert up + [] == up; } }
  }

  /** The walk past `j`: everything eligible up to there, then what the permissions left there allow. */
  ghost predicate Past(g: seq<Grant>, i: nat, j: nat, permits: nat)
    requires i <= j < |g|
  {
    var left := permits + Surplus(g, i, j + 1);
    left >= 0 && WalkFrom(g, i, permits).visits == EligibleIn(g, i, j + 1) + WalkFrom(g, j + 1, left).visits
  }

  lemma {:induction false} PastHere(g: seq<Grant>, j: nat, permits: nat)
    requires j < |g| && g[j].Visit? && permits >= 1
    ensures Past(g, j, j, permits)
  {
    assert EligibleIn(g, j + 1, j + 1) == [] && Surplus(g, j + 1, j + 1) == 0;
    StepBack(g, j, j + 1, permits, WalkFrom(g, j + 1, permits - 1 + g[j].asks).visits);
  }

  lemma {:induction false} PastStep(g: seq<Grant>, i: nat, j: nat, permits: nat)
    requires i < j < |g| && permits >= 1
    requires Past(g, i + 1, j, if g[i].Visit? then permits - 1 + g[i].asks else permits)
    ensures Past(g, i, j, permits)
  {
    var left := permits + Surplus(g, i, j + 1);
    StepBack(g, i, j + 1, permits, WalkFrom(g, j + 1, left).visits);
  }

  lemma {:induction false} WalkPast(g: seq<Grant>, i: nat, j: nat, permits: nat)
    requires i <= |g| && j in WalkFrom(g, i, permits).visits
    ensures i <= j < |g| && Past(g, i, j, permits)
    decreases |g| - i
  {
    VisitedNowOrLater(g, i, j, permits);
    if g[i].Visit? && i == j {
      PastHere(g, j, permits);
    } else {
      WalkPast(g, i + 1, j, if g[i].Visit? then permits - 1 + g[i].asks else permits);
      PastStep(g, i, j, permits);
    }
  }

  lemma {:induction false} VisitedNowOrLater(g: seq<Grant>, i: nat, j: nat, permits: nat)
    requires i <= |g| && j in WalkFrom(g, i, permits).visits
    ensures i < |g| && permits >= 1
    ensures !(g[i].Visit? && i == j) ==>
              j in WalkFrom(g, i + 1, if g[i].Visit? then permits - 1 + g[i].asks else permits).visits
  {
    if i < |g| && permits >= 1 { WalkStep(g, i, permits); }
  }

  /** Exactly when nothing behind a visited position is visited: no permission is left, or nothing eligible follows. */
  lemma {:induction false} NothingBehindExactly(g: seq<Grant>, j: nat)
    requires j in WalkFrom(g, 0, 1).visits
    ensures j < |g|
    ensures (forall k :: k in WalkFrom(g, 0, 1).visits ==> k <= j) <==>
            Surplus(g, 0, j + 1) == -1 || EligibleIn(g, j + 1, |g|) == []
  {
    WalkPast(g, 0, j, 1);
    var behind := WalkFrom(g, j + 1, 1 + Surplus(g, 0, j + 1)).visits;
    var here := EligibleIn(g, 0, j + 1);
    forall i | 0 <= i < |here| ensures here[i] <= j { EligibleMember(g, 0, j + 1, here[i]); }
    forall i | 0 <= i < |behind| ensures behind[i] > j { WalkPast(g, j + 1, behind[i], 1 + Surplus(g, 0, j + 1)); }
    VisitsNothingExactly(g, j + 1, 1 + Surplus(g, 0, j + 1));
    if behind != [] { assert behind[0] in WalkFrom(g, 0, 1).visits; }
  }

  /** The first body calls `next` twice, the second never: the third runs all the same. */
  lemma {:induction false} ResumesPastSilent()
    ensures var g := Grants([Middleware(0, true, [CallNext, CallNext]), Middleware(0, true, []), Middleware(0, true, [])], false);
            WalkFrom(g, 0, 1).visits == [0, 1, 2] && EligibleIn(g, 0, 2) == [0, 1]
  {
    var twice := [CallNext, CallNext];
    assert twice[1..] == [CallNext] && [CallNext][1..] == [];
    assert Performed(twice) == twice by { assert Performed([CallNext]) == [CallNext]; }
    assert AskedBy(twice, false, 2) == AskedBy(twice, false, 1) + 1 == AskedBy(twice, false, 0) + 2;
    var g := [Visit(2), Visit(0), Visit(0)];
    assert Grants([Middleware(0, true, twice), Middleware(0, true, []), Middleware(0, true, [])], false) == g;
    assert WalkFrom(g, 2, 1).visits == [2] + WalkFrom(g, 3, 0).visits == [2];
    assert WalkFrom(g, 1, 2).visits == [1] + WalkFrom(g, 2, 1).visits;
  }

  // ---- The default adapter ----

  /** A synchronous body run by the default adapter: it reports `Continue`, or `Error` when it throws. */
  function Adapted(m: Middleware): Middleware {
    m.(body := Performed(m.body) + [ReportResult(if Throws(m.body) then Error else Continue)])
  }

  function AdaptAll(p: seq<Middleware>): seq<Middleware> {
    seq(|p|, i requires 0 <= i < |p| => Adapted(p[i]))
  }

  /** A synchronous body has no callback to report to. */
  predicate SyncBody(m: Middleware) { forall i :: 0 <= i < |m.body| ==> !m.body[i].ReportResult? }

  lemma {:induction false} PerformedFacts(body: seq<Action>)
    ensures |Performed(body)| <= |body| && forall i :: 0 <= i < |Performed(body)| ==>
              Performed(body)[i] == body[i] && !body[i].ThrowError?
    ensures ThrowError !in body ==> Performed(body) == body
    ensures ThrowError in body ==> |Performed(body)| < |body| && body[|Performed(body)|] == ThrowError
    decreases |body|
  {
    if body != [] && !body[0].ThrowError? {
      PerformedFacts(body[1..]);
      assert body == [body[0]] + body[1..];
    }
  }

  lemma {:induction false} AskedBySame(a: seq<Action>, b: seq<Action>, async: bool, n: nat)
    requires n <= |a| && n <= |b| && forall i :: 0 <= i < n ==> a[i] == b[i]
    ensures AskedBy(a, async, n) == AskedBy(b, async, n)
    decreases n
  {
    if n > 0 { AskedBySame(a, b, async, n - 1); }
  }

  lemma {:induction false} AskedWithoutReports(acts: seq<Action>, n: nat)
    requires n <= |acts| && forall i :: 0 <= i < n ==> !acts[i].ReportResult?
    ensures AskedBy(acts, true, n) == AskedBy(acts, false, n)
    decreases n
  {
    if n > 0 { AskedWithoutReports(acts, n - 1); }
  }

  lemma {:induction false} AdaptedBody(m: Middleware)
    ensures var acts, body := Performed(m.body), Adapted(m).body;
            && Performed(body) == body && |body| == |acts| + 1 && |acts| <= |m.body|
            && (forall i :: 0 <= i < |acts| ==> body[i] == acts[i] == m.body[i])
            && body[|acts|] == ReportResult(if Throws(m.body) then Error else Continue)
            && !Throws(body)
  {
    PerformedFacts(m.body);
    PerformedFacts(Adapted(m).body);
  }

  /** The adapter adds one permission to a body that returns and none to one that throws. */
  lemma {:induction false} AdapterAsksOneMore(m: Middleware)
    requires SyncBody(m)
    ensures Asks(Adapted(m), true) == Asks(m, false) + One(!Throws(m.body))
    ensures Ends(Adapted(m)) == if Throws(m.body) then {Error} else {}
  {
    AdaptedBody(m);
    var acts, body := Performed(m.body), Adapted(m).body;
    AdapterAsks(acts, body);
    AdapterEnds(m);
    assert Script(Adapted(m)) == body + [] == body;
    ThrowAsksNothing(m);
  }

  lemma {:induction false} ThrowAsksNothing(m: Middleware)
    ensures Asks(m, false) == Asked(Performed(m.body), false)
  {
    var acts := Performed(m.body);
    if Throws(m.body) {
      AskedAppend(acts, [ThrowError], false);
      AskedCons([ThrowError], false);
    } else {
      assert acts + [] == acts;
    }
  }

  lemma {:induction false} AdapterAsks(acts: seq<Action>, body: seq<Action>)
    requires forall i :: 0 <= i < |acts| ==> !acts[i].ReportResult?
    requires |body| == |acts| + 1 && forall i :: 0 <= i < |acts| ==> body[i] == acts[i]
    ensures AskedBy(body, true, |body|) == AskedBy(acts, false, |acts|) + One(Advances(body[|acts|], true))
  {
    AskedBySame(body, acts, true, |acts|);
    AskedWithoutReports(acts, |acts|);
  }

  lemma {:induction false} AdapterEnds(m: Middleware)
    requires SyncBody(m)
    ensures Ends(Adapted(m)) == if Throws(m.body) then {Error} else {}
  {
    AdaptedBody(m);
    var n, body := |Performed(m.body)|, Adapted(m).body;
    assert body[n] in body;
    assert forall i :: 0 <= i < n ==> !body[i].ReportResult?;
  }

  /**
   Asynchronous execution over the default adapter, when nothing throws: every eligible position
   is visited once, in order, and a permission is left to complete the run.
   */
  lemma {:induction false} AsyncVisitsAll(p: seq<Middleware>)
    requires forall i :: 0 <= i < |p| ==> SyncBody(p[i]) && !Throws(p[i].body)
    ensures var g := Grants(AdaptAll(p), true);
            WalkFrom(g, 0, 1).visits == EligibleIn(Grants(p, false), 0, |p|) && WalkFrom(g, 0, 1).left >= 1
    ensures forall i :: 0 <= i < |p| ==> Ends(AdaptAll(p)[i]) == {}
  {
    var g, h := Grants(AdaptAll(p), true), Grants(p, false);
    forall i | 0 <= i < |p| ensures g[i].Visit? == h[i].Visit? && (g[i].Visit? ==> g[i].asks >= 1) && Ends(AdaptAll(p)[i]) == {} {
      AdapterAsksOneMore(p[i]);
    }
    GenerousVisitsAll(g, 0, 1);
    EligibleSame(h, g, 0);
  }

  lemma {:induction false} EligibleSame(g: seq<Grant>, h: seq<Grant>, i: nat)
    requires i <= |g| == |h| && forall k :: 0 <= k < |g| ==> g[k].Visit? == h[k].Visit?
    ensures EligibleIn(g, i, |g|) == EligibleIn(h, i, |h|)
    decreases |g| - i
  {
    if i < |g| { EligibleSame(g, h, i + 1); }
  }

  /** Both executions visit the same positions, exactly when the synchronous one is never starved. */
  lemma {:induction false} ExecutionsAgreeExactly(p: seq<Middleware>)
    requires forall i :: 0 <= i < |p| ==> SyncBody(p[i]) && !Throws(p[i].body)
    ensures WalkFrom(Grants(p, false), 0, 1).visits == WalkFrom(Grants(AdaptAll(p), true), 0, 1).visits <==>
            NeverStarved(Grants(p, false), 0, 1)
  {
    AsyncVisitsAll(p);
    VisitsAllExactly(Grants(p, false), 0, 1);
  }

  /** In particular they agree when every eligible body but the last calls `next` at least once. */
  lemma {:induction false} AgreeWhenAllButLastCallNext(p: seq<Middleware>, last: nat)
    requires forall i :: 0 <= i < |p| ==> SyncBody(p[i]) && !Throws(p[i].body)
    requires forall k :: 0 <= k < |p| && p[k].eligible ==> k <= last && (k < last ==> Asks(p[k], false) >= 1)
    ensures WalkFrom(Grants(p, false), 0, 1).visits == WalkFrom(Grants(AdaptAll(p), true), 0, 1).visits
  {
    var g := Grants(p, false);
    forall k | 0 <= k < |g| && g[k].Visit? ensures 1 + Surplus(g, 0, k) >= 1 {
      SurplusPositive(g, 0, k);
    }
    ExecutionsAgreeExactly(p);
  }
}

/**
 What one request does, as a flat list of things to do: a visited body puts its actions in front of
 those that are still pending. The recursive executions of `PipelineExecution` are specified by it,
 and `PipelineWalk` gives its closed form.
 */
module PipelineAgenda {
  import opened PipelineProtocol
  import opened PipelineWalk

  /**
   Positions visited, the index reached, the results the run was asked to complete with, the calls
   of the error handler, and whether a step found the global timeout used up.
   */
  datatype Effect = Effect(visits: seq<nat>, reach: nat, attempts: seq<Result>, errors: nat, late: bool)

  function Then(u: Effect, v: Effect): Effect {
    Effect(u.visits + v.visits, v.reach, u.attempts + v.attempts, u.errors + v.errors, u.late || v.late)
  }

  /** What an action that takes no position does at index `i`. */
  function Effects(a: Action, async: bool, i: nat): Effect {
    match a
    case CallNext => Effect([], i, [], 0, false)
    case ReportResult(r) => Effect([], i, if async then [r] else [], 0, false)
    case ThrowError => Effect([], i, if async then [Error] else [], 1, false)
  }

  /** What a request for another position does at the limit: the end of the pipeline, or the time. */
  function AtLimit(async: bool, i: nat, late: bool): Effect {
    Effect([], i, if async then [if late then Timeout else Continue] else [], 0, late)
  }

  /**
   Works off `acts` from index `i` on. `limit` is the length of the pipeline, or the position whose
   claim comes too late.
   */
  function Agenda(p: seq<Middleware>, limit: nat, async: bool, i: nat, acts: seq<Action>): (e: Effect)
    requires i <= limit <= |p|
    ensures i <= e.reach <= limit && (e.late ==> e.reach == limit < |p|)
    decreases limit - i, |acts|
  {
    if acts == [] then Effect([], i, [], 0, false)
    else if !Advances(acts[0], async) then Then(Effects(acts[0], async, i), Agenda(p, limit, async, i, acts[1..]))
    else if i == limit then Then(AtLimit(async, i, limit < |p|), Agenda(p, limit, async, i, acts[1..]))
    else if !p[i].eligible then Agenda(p, limit, async, i + 1, acts)
    else Then(Effect([i], i + 1, [], 0, false), Agenda(p, limit, async, i + 1, Script(p[i]) + acts[1..]))
  }

  lemma {:induction false} ThenAssociates(u: Effect, v: Effect, w: Effect)
    ensures Then(Then(u, v), w) == Then(u, Then(v, w))
  {
    assert u.visits + v.visits + w.visits == u.visits + (v.visits + w.visits);
    assert u.attempts + v.attempts + w.attempts == u.attempts + (v.attempts + w.attempts);
  }

  /** An agenda in two parts: the second goes on where the first stopped. */
  lemma {:induction false} AgendaInTwo(p: seq<Middleware>, limit: nat, async: bool, i: nat, a: seq<Action>, b: seq<Action>)
    requires i <= limit <= |p|
    ensures var u := Agenda(p, limit, async, i, a);
            Agenda(p, limit, async, i, a + b) == Then(u, Agenda(p, limit, async, u.reach, b))
    decreases limit - i, |a|
  {
    if a == [] {
      assert [] + b == b;
      var v := Agenda(p, limit, async, i, b);
      assert [] + v.visits == v.visits && [] + v.attempts == v.attempts;
    } else {
      assert (a + b)[1..] == a[1..] + b;
      if Advances(a[0], async) && i < limit {
        if !p[i].eligible {
          AgendaInTwo(p, limit, async, i + 1, a, b);
        } else {
          var more := Script(p[i]) + a[1..];
          assert Script(p[i]) + (a[1..] + b) == more + b;
          AgendaInTwo(p, limit, async, i + 1, more, b);
          var u := Agenda(p, limit, async, i + 1, more);
          ThenAssociates(Effect([i], i + 1, [], 0, false), u, Agenda(p, limit, async, u.reach, b));
        }
      } else {
        AgendaInTwo(p, limit, async, i, a[1..], b);
        var first := if Advances(a[0], async) then AtLimit(async, i, limit < |p|) else Effects(a[0], async, i);
        var u := Agenda(p, limit, async, i, a[1..]);
        ThenAssociates(first, u, Agenda(p, limit, async, u.reach, b));
      }
    }
  }

  // ---- The positions visited ----

  /** The effect and the walk agree on positions and on whether the time was found used up. */
  ghost predicate Agree(p: seq<Middleware>, limit: nat, async: bool, i: nat, acts: seq<Action>)
    requires i <= limit <= |p|
  {
    var e := Agenda(p, limit, async, i, acts);
    var w := WalkFrom(Grants(p[..limit], async), i, Asked(acts, async));
    e.visits == w.visits && e.reach == w.reach && (e.late <==> w.left > 0 && limit < |p|)
  }

  lemma {:induction false} AgreeInPlace(p: seq<Middleware>, limit: nat, async: bool, i: nat, acts: seq<Action>)
    requires i <= limit <= |p| && acts != [] && (!Advances(acts[0], async) || i == limit)
    requires Agree(p, limit, async, i, acts[1..])
    ensures Agree(p, limit, async, i, acts)
  {
    AskedCons(acts, async);
  }

  lemma {:induction false} AgreeNext(p: seq<Middleware>, limit: nat, async: bool, i: nat, acts: seq<Action>)
    requires i < limit <= |p| && acts != [] && Advances(acts[0], async)
    requires Agree(p, limit, async, i + 1, if p[i].eligible then Script(p[i]) + acts[1..] else acts)
    ensures Agree(p, limit, async, i, acts)
  {
    AskedCons(acts, async);
    WalkStep(Grants(p[..limit], async), i, Asked(acts, async));
    AskedAppend(Script(p[i]), acts[1..], async);
  }

  /** Positions and permissions: the agenda visits what the walk over the positions before the limit visits. */
  lemma {:induction false} AgendaIsWalk(p: seq<Middleware>, limit: nat, async: bool, i: nat, acts: seq<Action>)
    requires i <= limit <= |p|
    ensures Agree(p, limit, async, i, acts)
    decreases limit - i, |acts|
  {
    if acts != [] {
      if !Advances(acts[0], async) || i == limit {
        AgendaIsWalk(p, limit, async, i, acts[1..]);
        AgreeInPlace(p, limit, async, i, acts);
      } else {
        AgendaIsWalk(p, limit, async, i + 1, if p[i].eligible then Script(p[i]) + acts[1..] else acts);
        AgreeNext(p, limit, async, i, acts);
      }
    }
  }

  // ---- The results it ends with ----

  /** The results by which the visited positions end the run. */
  ghost function EndsWithin(p: seq<Middleware>, visits: seq<nat>): set<Result> {
    set r: Result | EndedBy(p, visits, r)
  }

  ghost predicate EndedBy(p: seq<Middleware>, visits: seq<nat>, r: Result) {
    exists i :: 0 <= i < |visits| && visits[i] < |p| && r in Ends(p[visits[i]])
  }

  lemma {:induction false} EndsWithinCons(p: seq<Middleware>, pos: nat, visits: seq<nat>)
    requires pos < |p|
    ensures EndsWithin(p, [pos] + visits) == Ends(p[pos]) + EndsWithin(p, visits)
  {
    var all := [pos] + visits;
    forall r | EndedBy(p, visits, r) ensures EndedBy(p, all, r) {
      var i :| 0 <= i < |visits| && visits[i] < |p| && r in Ends(p[visits[i]]);
      assert all[i + 1] == visits[i];
    }
    assert all[0] == pos;
  }

  /** The result of asking for a position at the limit. */
  function LimitResult(p: seq<Middleware>, limit: nat): Result { if limit < |p| then Timeout else Continue }

  ghost function Tried(e: Effect): set<Result> { set r: Result | r in e.attempts }

  lemma {:induction false} TriedThen(u: Effect, v: Effect)
    ensures Tried(Then(u, v)) == Tried(u) + Tried(v)
  {
  }

  /**
   The results tried: those of the actions on the agenda and of the bodies visited, and that of the
   limit when permissions are left there.
   */
  ghost function Expected(p: seq<Middleware>, limit: nat, i: nat, acts: seq<Action>): set<Result>
    requires i <= limit <= |p|
  {
    var w := WalkFrom(Grants(p[..limit], true), i, Asked(acts, true));
    Outcomes(p, limit, acts, w.visits, w.left)
  }

  ghost function Outcomes(p: seq<Middleware>, limit: nat, acts: seq<Action>, visits: seq<nat>, left: nat): set<Result> {
    EndsAmong(acts) + EndsWithin(p, visits) + if left > 0 then {LimitResult(p, limit)} else {}
  }

  ghost predicate TriesExpected(p: seq<Middleware>, limit: nat, i: nat, acts: seq<Action>)
    requires i <= limit <= |p|
  {
    Tried(Agenda(p, limit, true, i, acts)) == Expected(p, limit, i, acts)
  }

  lemma {:induction false} AgendaTries(p: seq<Middleware>, limit: nat, i: nat, acts: seq<Action>)
    requires i <= limit <= |p|
    ensures TriesExpected(p, limit, i, acts)
    decreases limit - i, |acts|
  {
    if acts == [] {
      assert EndsWithin(p, []) == {} && EndsAmong([]) == {};
    } else if !Advances(acts[0], true) || i == limit {
      AgendaTries(p, limit, i, acts[1..]);
      TriesInPlace(p, limit, i, acts);
    } else {
      AgendaTries(p, limit, i + 1, if p[i].eligible then Script(p[i]) + acts[1..] else acts);
      TriesNext(p, limit, i, acts);
    }
  }

  lemma {:induction false} TriesInPlace(p: seq<Middleware>, limit: nat, i: nat, acts: seq<Action>)
    requires i <= limit <= |p| && acts != [] && (!Advances(acts[0], true) || i == limit)
    requires TriesExpected(p, limit, i, acts[1..])
    ensures TriesExpected(p, limit, i, acts)
  {
    var v := Agenda(p, limit, true, i, acts[1..]);
    if !Advances(acts[0], true) {
      TriedThen(Effects(acts[0], true, i), v);
      TriedByAction(acts[0], i);
      ExpectedCons(p, limit, i, acts);
    } else {
      TriedThen(AtLimit(true, i, limit < |p|), v);
      assert Tried(AtLimit(true, i, limit < |p|)) == {LimitResult(p, limit)};
      ExpectedAtLimit(p, limit, acts);
    }
  }

  lemma {:induction false} TriesNext(p: seq<Middleware>, limit: nat, i: nat, acts: seq<Action>)
    requires i < limit <= |p| && acts != [] && Advances(acts[0], true)
    requires TriesExpected(p, limit, i + 1, if p[i].eligible then Script(p[i]) + acts[1..] else acts)
    ensures TriesExpected(p, limit, i, acts)
  {
    if p[i].eligible {
      TriedThen(Effect([i], i + 1, [], 0, false), Agenda(p, limit, true, i + 1, Script(p[i]) + acts[1..]));
      ExpectedInBody(p, limit, i, acts);
    } else {
      ExpectedPastSkipped(p, limit, i, acts);
    }
  }

  /** An action that takes no position adds its own results. */
  lemma {:induction false} ExpectedCons(p: seq<Middleware>, limit: nat, i: nat, acts: seq<Action>)
    requires i <= limit <= |p| && acts != [] && !Advances(acts[0], true)
    ensures Expected(p, limit, i, acts) == EndsBy(acts[0]) + Expected(p, limit, i, acts[1..])
  {
    AskedCons(acts, true);
    EndsAmongCons(acts);
  }

  lemma {:induction false} ExpectedAtLimit(p: seq<Middleware>, limit: nat, acts: seq<Action>)
    requires limit <= |p| && acts != [] && Advances(acts[0], true)
    ensures Expected(p, limit, limit, acts) == {LimitResult(p, limit)} + Expected(p, limit, limit, acts[1..])
  {
    AskedCons(acts, true);
    EndsAmongCons(acts);
    assert EndsBy(acts[0]) == {};
  }

  /** A skipped position changes nothing. */
  lemma {:induction false} ExpectedPastSkipped(p: seq<Middleware>, limit: nat, i: nat, acts: seq<Action>)
    requires i < limit <= |p| && acts != [] && Advances(acts[0], true) && !p[i].eligible
    ensures Expected(p, limit, i, acts) == Expected(p, limit, i + 1, acts)
  {
    AskedCons(acts, true);
    WalkStep(Grants(p[..limit], true), i, Asked(acts, true));
  }

  lemma {:induction false} TriedByAction(a: Action, i: nat)
    requires !Advances(a, true)
    ensures Tried(Effects(a, true, i)) == EndsBy(a)
  {
  }

  /** Entering a body expects the same results as having its actions on the agenda. */
  lemma {:induction false} ExpectedInBody(p: seq<Middleware>, limit: nat, i: nat, acts: seq<Action>)
    requires i < limit <= |p| && acts != [] && Advances(acts[0], true) && p[i].eligible
    ensures Expected(p, limit, i, acts) == Expected(p, limit, i + 1, Script(p[i]) + acts[1..])
  {
    var more := Script(p[i]) + acts[1..];
    var w := WalkFrom(Grants(p[..limit], true), i + 1, Asked(more, true));
    WalkIntoBody(p, limit, i, acts);
    OutcomesInBody(p, limit, i, acts, w.visits, w.left);
  }

  lemma {:induction false} WalkIntoBody(p: seq<Middleware>, limit: nat, i: nat, acts: seq<Action>)
    requires i < limit <= |p| && acts != [] && Advances(acts[0], true) && p[i].eligible
    ensures var g := Grants(p[..limit], true);
            var w := WalkFrom(g, i + 1, Asked(Script(p[i]) + acts[1..], true));
            WalkFrom(g, i, Asked(acts, true)) == w.(visits := [i] + w.visits)
  {
    AskedCons(acts, true);
    AskedAppend(Script(p[i]), acts[1..], true);
    WalkStep(Grants(p[..limit], true), i, Asked(acts, true));
  }

  lemma {:induction false} OutcomesInBody(p: seq<Middleware>, limit: nat, i: nat, acts: seq<Action>, visits: seq<nat>, left: nat)
    requires i < |p| && acts != [] && Advances(acts[0], true)
    ensures Outcomes(p, limit, acts, [i] + visits, left) == Outcomes(p, limit, Script(p[i]) + acts[1..], visits, left)
  {
    EndsAmongCons(acts);
    EndsAmongAppend(Script(p[i]), acts[1..]);
    EndsWithinCons(p, i, visits);
    assert EndsBy(acts[0]) == {};
  }

  /** A synchronous run has no callback to complete with. */
  lemma {:induction false} NoAttempts(p: seq<Middleware>, limit: nat, i: nat, acts: seq<Action>)
    requires i <= limit <= |p|
    ensures Agenda(p, limit, false, i, acts).attempts == []
    decreases limit - i, |acts|
  {
    if acts != [] {
      if !Advances(acts[0], false) || i == limit {
        NoAttempts(p, limit, i, acts[1..]);
      } else {
        NoAttempts(p, limit, i + 1, if p[i].eligible then Script(p[i]) + acts[1..] else acts);
      }
    }
  }

  // ---- What single things bring ----

  /** A throw brings `Error`, a report its own result, and a request at the limit `Timeout` or, at the end, `Continue`. */
  lemma {:induction false} ResultsBrought(p: seq<Middleware>, limit: nat, i: nat, r: Result)
    requires i <= limit <= |p|
    ensures Agenda(p, limit, true, i, [ThrowError]) == Effect([], i, [Error], 1, false)
    ensures r != Continue ==> Agenda(p, limit, true, i, [ReportResult(r)]) == Effect([], i, [r], 0, false)
    ensures Agenda(p, limit, true, limit, [CallNext]) ==
            if limit < |p| then Effect([], limit, [Timeout], 0, true) else Effect([], limit, [Continue], 0, false)
    ensures Agenda(p, limit, true, limit, [ReportResult(Continue)]) == Agenda(p, limit, true, limit, [CallNext])
  {
    assert [ThrowError][1..] == [] && [ReportResult(r)][1..] == [] && [CallNext][1..] == [];
    assert [ReportResult(Continue)][1..] == [];
  }

  // ---- Reports do not stop the walk ----

  /**
   What runs behind a visited position does not depend on what its body reports: nothing does if and
   only if no permission is left there or nothing eligible follows before the limit.
   */
  lemma {:induction false} StopsBehindExactly(p: seq<Middleware>, limit: nat, async: bool, j: nat)
    requires limit <= |p| && j in Agenda(p, limit, async, 0, [CallNext]).visits
    ensures j < limit
    ensures var g := Grants(p[..limit], async);
            (forall k :: k in Agenda(p, limit, async, 0, [CallNext]).visits ==> k <= j) <==>
            Surplus(g, 0, j + 1) == -1 || EligibleIn(g, j + 1, limit) == []
  {
    AgendaIsWalk(p, limit, async, 0, [CallNext]);
    AskedCons([CallNext], async);
    NothingBehindExactly(Grants(p[..limit], async), j);
  }

  /** A body reports `Stop` and calls `next`: the run completes with `Stop`, and the next position runs all the same. */
  lemma {:induction false} RunsOnAfterStop(p: seq<Middleware>, i: nat)
    requires i + 2 == |p| && p[i].eligible && p[i + 1].eligible
    requires p[i].body == [ReportResult(Stop), CallNext] && p[i + 1].body == []
    ensures Agenda(p, |p|, true, i, [CallNext]) == Effect([i, i + 1], |p|, [Stop], 0, false)
  {
    StopScripts(p[i], p[i + 1]);
    SilentLast(p, i + 1);
    ReportFirst(p, |p|, i + 1, Stop, [CallNext]);
    AgendaOne(p, |p|, i);
    assert [i] + [i + 1] == [i, i + 1] && [] + [Stop] == [Stop];
  }

  lemma {:induction false} StopScripts(m: Middleware, silent: Middleware)
    requires m.body == [ReportResult(Stop), CallNext] && silent.body == []
    ensures Script(m) == [ReportResult(Stop)] + [CallNext] && Script(silent) == []
  {
    assert m.body[1..] == [CallNext] && [CallNext][1..] == [];
    assert Performed([CallNext]) == [CallNext] && Performed(m.body) == [ReportResult(Stop)] + [CallNext];
    assert ThrowError !in m.body;
  }

  lemma {:induction false} SilentLast(p: seq<Middleware>, i: nat)
    requires i + 1 == |p| && p[i].eligible && Script(p[i]) == []
    ensures Agenda(p, |p|, true, i, [CallNext]) == Effect([i], |p|, [], 0, false)
  {
    AgendaOne(p, |p|, i);
  }

  lemma {:induction false} ReportFirst(p: seq<Middleware>, limit: nat, i: nat, r: Result, rest: seq<Action>)
    requires i <= limit <= |p| && r != Continue
    ensures Agenda(p, limit, true, i, [ReportResult(r)] + rest) ==
            Then(Effect([], i, [r], 0, false), Agenda(p, limit, true, i, rest))
  {
    assert ([ReportResult(r)] + rest)[1..] == rest;
  }

  /** A single request for an eligible position. */
  lemma {:induction false} AgendaOne(p: seq<Middleware>, limit: nat, i: nat)
    requires i < limit <= |p| && p[i].eligible
    ensures Agenda(p, limit, true, i, [CallNext]) ==
            Then(Effect([i], i + 1, [], 0, false), Agenda(p, limit, true, i + 1, Script(p[i])))
  {
    assert [CallNext][1..] == [] && Script(p[i]) + [] == Script(p[i]);
  }

  // ---- Error handling ----

  /** How many of the visited bodies throw. */
  ghost function Throwers(p: seq<Middleware>, visits: seq<nat>): nat {
    if visits == [] then 0
    else One(visits[0] < |p| && Throws(p[visits[0]].body)) + Throwers(p, visits[1..])
  }

  ghost function ThrowsIn(acts: seq<Action>): nat { multiset(acts)[ThrowError] }

  /** The error handler is called once for every visited body that throws. */
  lemma {:induction false} AgendaErrors(p: seq<Middleware>, limit: nat, async: bool, i: nat, acts: seq<Action>)
    requires i <= limit <= |p|
    ensures var e := Agenda(p, limit, async, i, acts); e.errors == ThrowsIn(acts) + Throwers(p, e.visits)
    decreases limit - i, |acts|
  {
    if acts != [] {
      var rest := acts[1..];
      assert acts == [acts[0]] + rest;
      if !Advances(acts[0], async) || i == limit {
        AgendaErrors(p, limit, async, i, rest);
        var v := Agenda(p, limit, async, i, rest);
        assert [] + v.visits == v.visits;
      } else if !p[i].eligible {
        AgendaErrors(p, limit, async, i + 1, acts);
      } else {
        AgendaErrors(p, limit, async, i + 1, Script(p[i]) + rest);
        ScriptThrows(p[i]);
        ThrowersCons(p, i, Agenda(p, limit, async, i + 1, Script(p[i]) + rest).visits);
      }
    }
  }

  lemma {:induction false} ThrowersCons(p: seq<Middleware>, i: nat, visits: seq<nat>)
    requires i < |p|
    ensures Throwers(p, [i] + visits) == One(Throws(p[i].body)) + Throwers(p, visits)
  {
    assert ([i] + visits)[1..] == visits;
  }

  lemma {:induction false} ScriptThrows(m: Middleware)
    ensures ThrowsIn(Script(m)) == One(Throws(m.body))
  {
    PerformedFacts(m.body);
    assert ThrowError !in Performed(m.body);
  }

  // ---- The default adapter ----

  predicate AllReturn(p: seq<Middleware>) { forall i :: 0 <= i < |p| ==> SyncBody(p[i]) && !Throws(p[i].body) }

  /**
   Over the default adapter, when nothing throws and the time does not run out, every eligible
   position is visited once, in order, and the run completes with `Continue`.
   */
  lemma {:induction false} AdaptedAgenda(p: seq<Middleware>)
    requires AllReturn(p)
    ensures var e := Agenda(AdaptAll(p), |p|, true, 0, [CallNext]);
            && e.visits == EligibleIn(Grants(p, false), 0, |p|) && e.errors == 0 && !e.late
            && e.attempts != [] && e.attempts[0] == Continue
  {
    var q, acts := AdaptAll(p), [CallNext];
    var e := Agenda(q, |p|, true, 0, acts);
    AdaptedWalk(p);
    AgendaIsWalk(q, |p|, true, 0, acts);
    AgendaErrors(q, |p|, true, 0, acts);
    NoThrowers(q, e.visits);
    assert Tried(e) == {Continue} by { AgendaTries(q, |p|, 0, acts); }
    assert Continue in Tried(e);
    assert e.attempts[0] in Tried(e);
  }

  lemma {:induction false} AdaptedWalk(p: seq<Middleware>)
    requires AllReturn(p)
    ensures var w := WalkFrom(Grants(AdaptAll(p)[..|p|], true), 0, Asked([CallNext], true));
            w.visits == EligibleIn(Grants(p, false), 0, |p|) && w.left >= 1
    ensures forall i :: 0 <= i < |p| ==> Ends(AdaptAll(p)[i]) == {}
    ensures Expected(AdaptAll(p), |p|, 0, [CallNext]) == {Continue}
  {
    var q := AdaptAll(p);
    assert q[..|p|] == q;
    AskedCons([CallNext], true);
    AsyncVisitsAll(p);
    var w := WalkFrom(Grants(q, true), 0, 1);
    NothingEnds(q, w.visits, w.left);
  }

  lemma {:induction false} NothingEnds(p: seq<Middleware>, visits: seq<nat>, left: nat)
    requires (forall i :: 0 <= i < |p| ==> Ends(p[i]) == {}) && left >= 1
    ensures Outcomes(p, |p|, [CallNext], visits, left) == {Continue}
  {
    assert EndsAmong([CallNext]) == {} && EndsWithin(p, visits) == {};
  }

  lemma {:induction false} NoThrowers(p: seq<Middleware>, visits: seq<nat>)
    requires forall i :: 0 <= i < |p| ==> Error !in Ends(p[i])
    ensures Throwers(p, visits) == 0
    decreases |visits|
  {
    if visits != [] { NoThrowers(p, visits[1..]); }
  }
}

/** The chain's two executions as recursive procedures over a shared, mutable run state. */
module PipelineExecution {
  import opened PipelineProtocol
  import opened PipelineWalk
  import opened PipelineAgenda
  import Sorting

  /** `PipelineExecutionState`, with the observable effects of the run recorded beside it. */
  class RunState {
    var currentIndex: nat
    var timedOut: bool
    var cancelled: bool
    var finished: bool
    var visited: seq<nat>         // positions whose body was entered, in order
    var completions: seq<Result>  // calls of the completion callback
    var timeouts: nat             // calls of the timeout handler
    var errors: nat               // calls of the error handler

    constructor ()
      ensures currentIndex == 0 && !timedOut && !cancelled && !finished
      ensures visited == [] && completions == [] && timeouts == 0 && errors == 0
    {
      currentIndex, timedOut, cancelled, finished := 0, false, false, false;
      visited, completions, timeouts, errors := [], [], 0, 0;
    }
  }

  /** The state of a run as a value. */
  datatype View = View(index: nat, timedOut: bool, cancelled: bool, finished: bool,
                       visited: seq<nat>, completions: seq<Result>, timeouts: nat, errors: nat)

  ghost function ViewOf(st: RunState): View
    reads st
  {
    View(st.currentIndex, st.timedOut, st.cancelled, st.finished, st.visited, st.completions, st.timeouts, st.errors)
  }

  /** A first attempt to complete an unfinished run succeeds, later ones do nothing. */
  function CompletedWith(b: View, attempts: seq<Result>): View {
    if b.finished || attempts == [] then b
    else b.(finished := true, completions := b.completions + [attempts[0]])
  }

  /** The state after an effect. The timeout handler is called by the step that first finds the time used up. */
  function AfterEffect(b: View, e: Effect): View {
    CompletedWith(b, e.attempts).(
      index := e.reach, visited := b.visited + e.visits, errors := b.errors + e.errors,
      timedOut := b.timedOut || e.late, timeouts := b.timeouts + One(e.late && !b.timedOut))
  }

  lemma {:induction false} AfterThen(b: View, u: Effect, v: Effect)
    ensures AfterEffect(AfterEffect(b, u), v) == AfterEffect(b, Then(u, v))
  {
    assert b.visited + u.visits + v.visits == b.visited + (u.visits + v.visits);
  }

  /** Reports and throws, as the state sees them. */
  lemma {:induction false} AfterReportOrThrow(b: View, a: Action)
    requires !Advances(a, true)
    ensures AfterEffect(b, Effects(a, true, b.index)) ==
            if a.ReportResult? then CompletedWith(b, [a.result]) else CompletedWith(b, [Error]).(errors := b.errors + 1)
  {
    assert b.visited + [] == b.visited;
  }

  lemma {:induction false} AfterNothing(b: View)
    ensures AfterEffect(b, Effect([], b.index, [], 0, false)) == b
  {
  }

  /** One more action of a body, on top of the first `k`. */
  lemma {:induction false} OneMoreAction(p: seq<Middleware>, limit: nat, async: bool, b: View, i: nat, acts: seq<Action>, k: nat)
    requires i <= limit <= |p| && k < |acts|
    ensures var done := AfterEffect(b, Agenda(p, limit, async, i, acts[..k]));
            && done.index == Agenda(p, limit, async, i, acts[..k]).reach
            && AfterEffect(done, Agenda(p, limit, async, done.index, [acts[k]])) ==
               AfterEffect(b, Agenda(p, limit, async, i, acts[..k + 1]))
  {
    var u := Agenda(p, limit, async, i, acts[..k]);
    AgendaInTwo(p, limit, async, i, acts[..k], [acts[k]]);
    assert acts[..k + 1] == acts[..k] + [acts[k]];
    AfterThen(b, u, Agenda(p, limit, async, u.reach, [acts[k]]));
  }

  /** Claiming an eligible position, then doing what its body does. */
  lemma {:induction false} ClaimThenBody(p: seq<Middleware>, limit: nat, async: bool, b: View)
    requires b.index < limit <= |p| && p[b.index].eligible
    ensures var entered := b.(index := b.index + 1, visited := b.visited + [b.index]);
            AfterEffect(entered, Agenda(p, limit, async, b.index + 1, Script(p[b.index]))) ==
            AfterEffect(b, Agenda(p, limit, async, b.index, [CallNext]))
  {
    var i := b.index;
    var claim := Effect([i], i + 1, [], 0, false);
    assert [CallNext][1..] == [] && Script(p[i]) + [] == Script(p[i]);
    AfterThen(b, claim, Agenda(p, limit, async, i + 1, Script(p[i])));
    assert AfterEffect(b, claim) == b.(index := i + 1, visited := b.visited + [i]);
  }

  lemma {:induction false} SkipIneligible(p: seq<Middleware>, limit: nat, async: bool, b: View)
    requires b.index < limit <= |p| && !p[b.index].eligible
    ensures var skipped := b.(index := b.index + 1);
            AfterEffect(skipped, Agenda(p, limit, async, b.index + 1, [CallNext])) ==
            AfterEffect(b, Agenda(p, limit, async, b.index, [CallNext]))
  {
  }

  /** What a single action does that takes no position, or takes one at the limit. */
  lemma {:induction false} SingleAction(p: seq<Middleware>, limit: nat, async: bool, i: nat, a: Action)
    requires i <= limit <= |p|
    ensures !Advances(a, async) ==> Agenda(p, limit, async, i, [a]) == Effects(a, async, i)
    ensures Advances(a, async) ==> Agenda(p, limit, async, i, [a]) == Agenda(p, limit, async, i, [CallNext])
    ensures i == limit ==> Agenda(p, limit, async, i, [CallNext]) == AtLimit(async, i, limit < |p|)
    decreases limit - i
  {
    assert [a][1..] == [] && [CallNext][1..] == [];
    if i < limit && Advances(a, async) && !p[i].eligible { SingleAction(p, limit, async, i + 1, a); }
  }

  ghost predicate InPriorityOrder(ms: seq<Middleware>) {
    forall i, j :: 0 <= i < j < |ms| ==> ms[i].priority <= ms[j].priority
  }

  /** A run that is `gone` has left the active runs, and no other has; otherwise nothing changed. */
  ghost predicate Leaves(before: seq<RunState>, after: seq<RunState>, st: RunState, gone: bool) {
    if gone then multiset(after) == multiset(before)[st := 0] else after == before
  }

  lemma {:induction false} RegisteredThenLeft(before: seq<RunState>, after: seq<RunState>, st: RunState, gone: bool)
    requires st !in before && Leaves(before + [st], after, st, gone)
    ensures multiset(after)[st := 0] == multiset(before) && (st in after <==> !gone)
    ensures gone ==> multiset(after) == multiset(before)
  {
    assert gone ==> (st in after <==> multiset(after)[st] > 0);
  }

  class Chain {
    var mws: seq<Middleware>
    var activeRuns: seq<RunState>
    var paused: bool
    var globalTimeout: bool   // a global timeout is configured
    var deadline: nat         // the first position whose claim comes after it has elapsed
    var timerArmed: bool      // the global timeout has a timer of its own

    /** How far steps can get: to the end, or to the position whose claim comes too late. */
    ghost function Limit(p: seq<Middleware>, timer: bool): (n: nat)
      reads this
      ensures n <= |p|
    {
      if globalTimeout && !timer && deadline < |p| then deadline else |p|
    }

    /** The run has not been stopped from outside; if its time is used up, it stands at the limit. */
    ghost predicate Ready(p: seq<Middleware>, st: RunState, timer: bool)
      reads this, st
    {
      && !st.cancelled && !paused && st.currentIndex <= Limit(p, timer)
      && (st.timedOut ==> st.currentIndex == Limit(p, timer) < |p|)
    }

    // ---- Configuration ----

    constructor ()
      ensures mws == [] && activeRuns == [] && !paused && !globalTimeout && deadline == 0 && !timerArmed
    {
      mws, activeRuns, paused := [], [], false;
      globalTimeout, deadline, timerArmed := false, 0, false;
    }

    /** Appends a middleware and re-sorts by priority. */
    method Use(mw: Middleware)
      modifies this`mws
      ensures multiset(mws) == multiset(old(mws)) + multiset{mw} && InPriorityOrder(mws)
    {
      mws := SortByPriority(mws + [mw]);
    }

    static method SortByPriority(ms: seq<Middleware>) returns (sorted: seq<Middleware>)
      ensures multiset(sorted) == multiset(ms) && InPriorityOrder(sorted)
    {
      var lower := (a: Middleware, b: Middleware) => a.priority < b.priority;
      sorted := Sorting.Sort(lower, ms);
      forall i, j | 0 <= i < j < |sorted| ensures sorted[i].priority <= sorted[j].priority {
        assert !lower(sorted[j], sorted[i]);
      }
    }

    // ---- Finishing a run ----

    method RegisterRun(st: RunState)
      modifies this`activeRuns
      ensures activeRuns == old(activeRuns) + [st]
    {
      activeRuns := activeRuns + [st];
    }

    method UnregisterRun(st: RunState)
      modifies this`activeRuns
      ensures Leaves(old(activeRuns), activeRuns, st, true)
    {
      var kept: seq<RunState> := [];
      for i := 0 to |activeRuns|
        invariant activeRuns == old(activeRuns) && multiset(kept) == multiset(activeRuns[..i])[st := 0]
      {
        assert activeRuns[..i + 1] == activeRuns[..i] + [activeRuns[i]];
        if activeRuns[i] != st { kept := kept + [activeRuns[i]]; }
      }
      assert activeRuns[..|activeRuns|] == activeRuns;
      activeRuns := kept;
    }

    /** The compare-exchange on `finished`; only its winner unregisters the run. */
    method TryFinishRun(st: RunState) returns (won: bool)
      modifies this`activeRuns, st`finished
      ensures won <==> !old(st.finished)
      ensures st.finished
      ensures Leaves(old(activeRuns), activeRuns, st, won)
    {
      if st.finished { return false; }
      st.finished := true;
      UnregisterRun(st);
      return true;
    }

    method CompleteAsyncRun(st: RunState, result: Result)
      modifies this`activeRuns, st`finished, st`completions
      ensures st.finished && Leaves(old(activeRuns), activeRuns, st, !old(st.finished))
      ensures ViewOf(st) == CompletedWith(old(ViewOf(st)), [result])
      ensures st.completions == old(st.completions) + if old(st.finished) then [] else [result]
    {
      var won := TryFinishRun(st);
      if won { st.completions := st.completions + [result]; }
    }

    // ---- Synchronous execution ----

    /** One step: checks the flags, claims a position, and runs its body with `next` bound to this step. */
    method ExecuteNextSync(p: seq<Middleware>, st: RunState)
      requires st.currentIndex <= |p|
      modifies st
      ensures old(Ready(p, st, false)) ==>
                && Ready(p, st, false)
                && ViewOf(st) == AfterEffect(old(ViewOf(st)), Agenda(p, Limit(p, false), false, old(st.currentIndex), [CallNext]))
      ensures old(st.cancelled || st.timedOut || paused) ==> ViewOf(st) == old(ViewOf(st))
      decreases |p| - st.currentIndex, 1
    {
      var done := StopsSync(p, st);
      if done {
        if old(Ready(p, st, false)) { SingleAction(p, Limit(p, false), false, st.currentIndex, CallNext); }
      } else {
        ClaimNextSync(p, st);
      }
    }

    /** The checks at the head of a step: nothing to claim, or no time left. */
    method StopsSync(p: seq<Middleware>, st: RunState) returns (done: bool)
      requires st.currentIndex <= |p|
      modifies st
      ensures !done ==> ViewOf(st) == old(ViewOf(st)) && Ready(p, st, false) && st.currentIndex < Limit(p, false)
      ensures done && old(Ready(p, st, false)) ==>
                var i := old(st.currentIndex);
                && i == Limit(p, false) && Ready(p, st, false)
                && ViewOf(st) == AfterEffect(old(ViewOf(st)), AtLimit(false, i, i < |p|))
      ensures old(st.cancelled || st.timedOut || paused) ==> done && ViewOf(st) == old(ViewOf(st))
    {
      if st.cancelled || st.timedOut || paused || st.currentIndex >= |p| { return true; }
      if globalTimeout && st.currentIndex >= deadline {
        st.timedOut := true;
        st.timeouts := st.timeouts + 1;
        return true;
      }
      return false;
    }

    method ClaimNextSync(p: seq<Middleware>, st: RunState)
      requires Ready(p, st, false) && st.currentIndex < Limit(p, false)
      modifies st
      ensures Ready(p, st, false)
      ensures ViewOf(st) == AfterEffect(old(ViewOf(st)), Agenda(p, Limit(p, false), false, old(st.currentIndex), [CallNext]))
      decreases |p| - st.currentIndex, 0
    {
      var pos := st.currentIndex;
      st.currentIndex := pos + 1;
      if p[pos].eligible {
        st.visited := st.visited + [pos];
        RunBodySync(p, pos, st);
        ClaimThenBody(p, Limit(p, false), false, old(ViewOf(st)));
      } else {
        ExecuteNextSync(p, st);
        SkipIneligible(p, Limit(p, false), false, old(ViewOf(st)));
      }
    }

    /** The body at `pos`: each `next` takes another step; a throw is handed to the error handler. */
    method RunBodySync(p: seq<Middleware>, pos: nat, st: RunState)
      requires pos < |p| && st.currentIndex == pos + 1 && Ready(p, st, false)
      modifies st
      ensures Ready(p, st, false)
      ensures ViewOf(st) == AfterEffect(old(ViewOf(st)), Agenda(p, Limit(p, false), false, pos + 1, Script(p[pos])))
      decreases |p| - st.currentIndex, 3
    {
      var body := Script(p[pos]);
      ghost var b, limit := ViewOf(st), Limit(p, false);
      AfterNothing(b);
      for k := 0 to |body|
        invariant pos + 1 <= st.currentIndex && Ready(p, st, false)
        invariant ViewOf(st) == AfterEffect(b, Agenda(p, limit, false, pos + 1, body[..k]))
      {
        OneMoreAction(p, limit, false, b, pos + 1, body, k);
        ActSync(p, pos, body[k], st);
      }
      assert body[..|body|] == body;
    }

    method ActSync(p: seq<Middleware>, ghost pos: nat, a: Action, st: RunState)
      requires pos < st.currentIndex <= |p| && Ready(p, st, false)
      modifies st
      ensures pos < st.currentIndex && Ready(p, st, false)
      ensures ViewOf(st) == AfterEffect(old(ViewOf(st)), Agenda(p, Limit(p, false), false, old(st.currentIndex), [a]))
      decreases |p| - pos - 1, 2
    {
      SingleAction(p, Limit(p, false), false, st.currentIndex, a);
      if a == CallNext {
        ExecuteNextSync(p, st);
      } else if a == ThrowError {
        st.errors := st.errors + 1;
      }
    }

    /** Runs the pipeline for one request; an empty chain does nothing. */
    method Execute() returns (st: RunState)
      modifies this`activeRuns
      ensures fresh(st) && multiset(activeRuns) == old(multiset(activeRuns))
      ensures mws != [] ==> st.finished
      ensures paused || mws == [] ==> st.visited == [] && st.timeouts == 0 && st.errors == 0
      ensures !paused && mws != [] ==> SyncOutcome(mws, Limit(mws, false), ViewOf(st))
    {
      st := new RunState();
      if mws == [] { return; }
      RegisterRun(st);
      FromTheStart(st);
      var won := TryFinishRun(st);
      RegisteredThenLeft(old(activeRuns), activeRuns, st, true);
    }

    /** The first step of a synchronous run, and with it the whole run. */
    method FromTheStart(st: RunState)
      requires ViewOf(st) == FRESH
      modifies st
      ensures !st.finished
      ensures if paused then ViewOf(st) == FRESH else SyncOutcome(mws, Limit(mws, false), ViewOf(st))
    {
      ExecuteNextSync(mws, st);
      if !paused { WholeRequest(mws, Limit(mws, false), false, ViewOf(st)); }
    }

    // ---- Asynchronous execution ----

    /** One step of the asynchronous pipeline, for bodies that act before they return. */
    method ExecuteNextAsyncStep(p: seq<Middleware>, st: RunState)
      requires st.currentIndex <= |p|
      modifies st, this`activeRuns
      ensures Leaves(old(activeRuns), activeRuns, st, st.finished != old(st.finished))
      ensures old(Ready(p, st, timerArmed)) ==>
                && Ready(p, st, timerArmed)
                && ViewOf(st) == AfterEffect(old(ViewOf(st)),
                                             Agenda(p, Limit(p, timerArmed), true, old(st.currentIndex), [CallNext]))
      ensures old(st.cancelled) ==> ViewOf(st) == CompletedWith(old(ViewOf(st)), [Stop])
      ensures old(!st.cancelled && st.timedOut) ==> ViewOf(st) == CompletedWith(old(ViewOf(st)), [Timeout])
      ensures old(!st.cancelled && !st.timedOut && paused) ==> ViewOf(st) == CompletedWith(old(ViewOf(st)), [Continue])
      decreases |p| - st.currentIndex, 1
    {
      var done := FinishInstead(p, st);
      if done {
        if old(Ready(p, st, timerArmed)) { SingleAction(p, Limit(p, timerArmed), true, st.currentIndex, CallNext); }
      } else {
        ClaimNext(p, st);
      }
    }

    /** The checks at the head of a step: completes the run when there is nothing to claim, or no time left. */
    method FinishInstead(p: seq<Middleware>, st: RunState) returns (done: bool)
      requires st.currentIndex <= |p|
      modifies st, this`activeRuns
      ensures Leaves(old(activeRuns), activeRuns, st, st.finished != old(st.finished))
      ensures !done ==> ViewOf(st) == old(ViewOf(st)) && Ready(p, st, timerArmed) && st.currentIndex < Limit(p, timerArmed)
      ensures done && old(Ready(p, st, timerArmed)) ==>
                var i := old(st.currentIndex);
                && i == Limit(p, timerArmed) && Ready(p, st, timerArmed)
                && ViewOf(st) == AfterEffect(old(ViewOf(st)), AtLimit(true, i, i < |p|))
      ensures old(st.cancelled) ==> done && ViewOf(st) == CompletedWith(old(ViewOf(st)), [Stop])
      ensures old(!st.cancelled && st.timedOut) ==> done && ViewOf(st) == CompletedWith(old(ViewOf(st)), [Timeout])
      ensures old(!st.cancelled && !st.timedOut && paused) ==>
                done && ViewOf(st) == CompletedWith(old(ViewOf(st)), [Continue])
    {
      if st.cancelled || st.timedOut || paused || st.currentIndex >= |p| {
        var r := if st.cancelled then Stop else if st.timedOut then Timeout else Continue;
        CompleteAsyncRun(st, r);
        return true;
      }
      if globalTimeout && !timerArmed && st.currentIndex >= deadline {
        st.timedOut := true;
        HandleTimeoutRun(st);
        return true;
      }
      return false;
    }

    /** Claims the next position, and runs its body or, when it is not eligible, takes another step. */
    method ClaimNext(p: seq<Middleware>, st: RunState)
      requires Ready(p, st, timerArmed) && st.currentIndex < Limit(p, timerArmed)
      modifies st, this`activeRuns
      ensures Leaves(old(activeRuns), activeRuns, st, st.finished != old(st.finished))
      ensures Ready(p, st, timerArmed)
      ensures ViewOf(st) == AfterEffect(old(ViewOf(st)), Agenda(p, Limit(p, timerArmed), true, old(st.currentIndex), [CallNext]))
      decreases |p| - st.currentIndex, 0
    {
      var pos := st.currentIndex;
      st.currentIndex := pos + 1;
      if p[pos].eligible {
        st.visited := st.visited + [pos];
        RunBodyAsync(p, pos, st);
        ClaimThenBody(p, Limit(p, timerArmed), true, old(ViewOf(st)));
      } else {
        ExecuteNextAsyncStep(p, st);
        SkipIneligible(p, Limit(p, timerArmed), true, old(ViewOf(st)));
      }
    }

    method HandleTimeoutRun(st: RunState)
      modifies this`activeRuns, st`finished, st`completions, st`timeouts
      ensures ViewOf(st) == CompletedWith(old(ViewOf(st)), [Timeout]).(timeouts := old(st.timeouts) + 1)
      ensures Leaves(old(activeRuns), activeRuns, st, st.finished != old(st.finished))
    {
      st.timeouts := st.timeouts + 1;
      CompleteAsyncRun(st, Timeout);
    }

    method HandleErrorRun(st: RunState)
      modifies this`activeRuns, st`finished, st`completions, st`errors
      ensures ViewOf(st) == CompletedWith(old(ViewOf(st)), [Error]).(errors := old(st.errors) + 1)
      ensures Leaves(old(activeRuns), activeRuns, st, st.finished != old(st.finished))
    {
      st.errors := st.errors + 1;
      CompleteAsyncRun(st, Error);
    }

    /** The body at `pos`: its actions in order, ending with its throw if it throws. */
    method RunBodyAsync(p: seq<Middleware>, pos: nat, st: RunState)
      requires pos < |p| && st.currentIndex == pos + 1 && Ready(p, st, timerArmed)
      modifies st, this`activeRuns
      ensures Ready(p, st, timerArmed)
      ensures ViewOf(st) == AfterEffect(old(ViewOf(st)), Agenda(p, Limit(p, timerArmed), true, pos + 1, Script(p[pos])))
      ensures Leaves(old(activeRuns), activeRuns, st, st.finished != old(st.finished))
      decreases |p| - st.currentIndex, 3
    {
      var body := Script(p[pos]);
      ghost var b, limit := ViewOf(st), Limit(p, timerArmed);
      AfterNothing(b);
      for k := 0 to |body|
        invariant pos + 1 <= st.currentIndex && Ready(p, st, timerArmed)
        invariant ViewOf(st) == AfterEffect(b, Agenda(p, limit, true, pos + 1, body[..k]))
        invariant Leaves(old(activeRuns), activeRuns, st, st.finished != b.finished)
      {
        OneMoreAction(p, limit, true, b, pos + 1, body, k);
        ActAsync(p, pos, body[k], st);
      }
      assert body[..|body|] == body;
    }

    /** One action of a body: another step, a final report, or a throw. */
    method ActAsync(p: seq<Middleware>, ghost pos: nat, a: Action, st: RunState)
      requires pos < st.currentIndex <= |p| && Ready(p, st, timerArmed)
      modifies st, this`activeRuns
      ensures pos < st.currentIndex && Ready(p, st, timerArmed)
      ensures ViewOf(st) == AfterEffect(old(ViewOf(st)), Agenda(p, Limit(p, timerArmed), true, old(st.currentIndex), [a]))
      ensures Leaves(old(activeRuns), activeRuns, st, st.finished != old(st.finished))
      decreases |p| - pos - 1, 2
    {
      SingleAction(p, Limit(p, timerArmed), true, st.currentIndex, a);
      if a == CallNext || a == ReportResult(Continue) {
        ExecuteNextAsyncStep(p, st);
      } else {
        AfterReportOrThrow(ViewOf(st), a);
        if a.ReportResult? { CompleteAsyncRun(st, a.result); } else { HandleErrorRun(st); }
      }
    }

    /** Starts an asynchronous request; an empty chain completes at once. */
    method ExecuteAsync() returns (st: RunState)
      modifies this`activeRuns
      ensures fresh(st) && multiset(activeRuns)[st := 0] == old(multiset(activeRuns))
      ensures (st in activeRuns <==> mws != [] && !st.finished) && (mws != [] ==> |st.completions| == One(st.finished))
      ensures mws == [] ==> st.completions == [Continue]
      ensures paused && mws != [] ==> st.visited == [] && st.completions == [Continue]
      ensures !paused && mws != [] ==> AsyncOutcome(mws, Limit(mws, timerArmed), ViewOf(st))
      ensures forall q :: mws == AdaptAll(q) && AllReturn(q) && mws != [] && !paused && Limit(mws, timerArmed) == |mws| ==>
                st.visited == EligibleIn(Grants(q, false), 0, |q|) && st.completions == [Continue]
    {
      st := new RunState();
      if mws == [] {
        st.completions := [Continue];
        return;
      }
      RegisterRun(st);
      ExecuteNextAsyncStep(mws, st);
      RegisteredThenLeft(old(activeRuns), activeRuns, st, st.finished);
      if !paused {
        WholeRequest(mws, Limit(mws, timerArmed), true, ViewOf(st));
        ghost var v := ViewOf(st);
        forall q | mws == AdaptAll(q) && AllReturn(q) && Limit(mws, timerArmed) == |mws|
          ensures v.visited == EligibleIn(Grants(q, false), 0, |q|) && v.completions == [Continue]
        {
          AdaptedRequest(q, v);
        }
      }
    }
  }

  const FRESH := View(0, false, false, false, [], [], 0, 0)

  /**
   What a synchronous request comes to: the positions of the walk, one call of the error handler
   for each that throws, and one of the timeout handler when a permission reached the limit too late.
   */
  ghost predicate SyncOutcome(p: seq<Middleware>, limit: nat, v: View)
    requires limit <= |p|
  {
    var w := WalkFrom(Grants(p[..limit], false), 0, 1);
    && v.visited == w.visits
    && v.timeouts == One(w.left > 0 && limit < |p|)
    && v.errors == Throwers(p, w.visits)
  }

  /**
   The same for an asynchronous request. It completes if and only if a permission reached the limit
   or a visited body ended it, with the first result that came up.
   */
  ghost predicate AsyncOutcome(p: seq<Middleware>, limit: nat, v: View)
    requires limit <= |p|
  {
    var w := WalkFrom(Grants(p[..limit], true), 0, 1);
    var attempts := Agenda(p, limit, true, 0, [CallNext]).attempts;
    && v.visited == w.visits
    && v.timeouts == One(w.left > 0 && limit < |p|)
    && v.errors == Throwers(p, w.visits)
    && (v.finished <==> w.left > 0 || EndsWithin(p, w.visits) != {})
    && v.completions == if v.finished && attempts != [] then [attempts[0]] else []
  }

  lemma {:induction false} WholeRequest(p: seq<Middleware>, limit: nat, async: bool, v: View)
    requires limit <= |p| && v == AfterEffect(FRESH, Agenda(p, limit, async, 0, [CallNext]))
    ensures !async ==> SyncOutcome(p, limit, v) && !v.finished
    ensures async ==> AsyncOutcome(p, limit, v) && |v.completions| == One(v.finished)
  {
    FirstStep(p, limit, async);
    assert [] + Agenda(p, limit, async, 0, [CallNext]).visits == Agenda(p, limit, async, 0, [CallNext]).visits;
    if async { FirstStepTries(p, limit); } else { NoAttempts(p, limit, 0, [CallNext]); }
  }

  lemma {:induction false} FirstStepTries(p: seq<Middleware>, limit: nat)
    requires limit <= |p|
    ensures var w := WalkFrom(Grants(p[..limit], true), 0, 1);
            Agenda(p, limit, true, 0, [CallNext]).attempts != [] <==> w.left > 0 || EndsWithin(p, w.visits) != {}
  {
    var e := Agenda(p, limit, true, 0, [CallNext]);
    AgendaTries(p, limit, 0, [CallNext]);
    AskedCons([CallNext], true);
    assert EndsAmong([CallNext]) == {};
    assert e.attempts != [] ==> e.attempts[0] in Tried(e);
  }

  lemma {:induction false} AdaptedRequest(q: seq<Middleware>, v: View)
    requires AllReturn(q) && AsyncOutcome(AdaptAll(q), |q|, v)
    ensures v.visited == EligibleIn(Grants(q, false), 0, |q|) && v.completions == [Continue]
  {
    FirstStep(AdaptAll(q), |q|, true);
    FirstStepTries(AdaptAll(q), |q|);
    AdaptedAgenda(q);
  }

  /** The closed form of a whole request. */
  lemma {:induction false} FirstStep(p: seq<Middleware>, limit: nat, async: bool)
    requires limit <= |p|
    ensures var e := Agenda(p, limit, async, 0, [CallNext]);
            var w := WalkFrom(Grants(p[..limit], async), 0, 1);
            && e.visits == w.visits && (e.late <==> w.left > 0 && limit < |p|) && e.errors == Throwers(p, e.visits)
  {
    AgendaIsWalk(p, limit, async, 0, [CallNext]);
    AgendaErrors(p, limit, async, 0, [CallNext]);
    AskedCons([CallNext], async);
  }
}

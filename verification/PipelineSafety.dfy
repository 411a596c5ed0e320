/** What holds of every run in every interleaving of the pipeline protocol. */
module PipelineSafety {
  import opened PipelineProtocol

  /** No thread of run `r` is on its way to unregister it or to call its callback. */
  ghost predicate Settled(s: System, r: nat) {
    Leaving(s.tasks, r) == 0 && Firing(s.tasks, r) == 0
  }

  /**
   Completion: in every interleaving each run completes at most once. Once the winning thread is
   through, it has completed exactly if it is finished, and is listed as active exactly if it is not.
   */
  lemma {:induction false} CompletesAtMostOnce(io: bool, es: seq<Event>, r: nat)
    requires IsTrace(Initial(io), es) && r < |After(Initial(io), es).runs|
    ensures var s := After(Initial(io), es);
            && |s.runs[r].completions| <= 1
            && (r in s.active <==> !s.runs[r].finished || Leaving(s.tasks, r) > 0)
            && (Settled(s, r) ==> (r in s.active <==> !s.runs[r].finished)
                                  && |s.runs[r].completions| == One(s.runs[r].finished))
  {
    TraceKeeps(Initial(io), es);
    var s := After(Initial(io), es);
    assert RunInv(s, r);
    assert r in s.active <==> multiset(s.active)[r] > 0;
  }

  /** Claims: positions are taken one by one from the front, and no body starts twice. */
  lemma {:induction false} ClaimsInOrder(io: bool, es: seq<Event>, r: nat)
    requires IsTrace(Initial(io), es) && r < |After(Initial(io), es).runs|
    ensures var run := After(Initial(io), es).runs[r];
            && |run.claims| <= run.size
            && (forall k :: 0 <= k < |run.claims| ==> run.claims[k] == k)
            && (forall p: nat :: multiset(run.ran)[p] <= One(p < |run.claims|))
            && run.lateClaims <= One(run.Stopping())
  {
    TraceKeeps(Initial(io), es);
    assert RunInv(After(Initial(io), es), r);
  }

  // ---- What one step can change in a run ----

  /** Parameters are fixed, flags are only ever set, and claims and the lock change only in the steps named. */
  ghost predicate Evolves(before: Run, after: Run, arm: bool, advance: bool, claim: bool) {
    && after.lazy == before.lazy && after.sync == before.sync
    && (before.cancelled ==> after.cancelled) && (before.timedOut ==> after.timedOut)
    && (after.armed ==> before.armed || arm)
    && (after.held ==> before.held || (advance && !before.Stopping()))
    && (after.claims == before.claims || claim)
  }

  lemma {:induction false} PerformEvolves(s: System, t: Task, flag: bool, q: nat)
    requires t.run < |s.runs| && q < |s.runs|
    ensures var s' := Perform(s, t, flag);
            && |s'.runs| == |s.runs| && s'.io == s.io
            && Evolves(s.runs[q], s'.runs[q], false, t == Advance(q), t == Claim(q))
  {
    if t.run == q { PerformOwn(s, t, flag); } else { PerformOther(s, t, flag, q); }
  }

  lemma {:induction false} PerformOwn(s: System, t: Task, flag: bool)
    requires t.run < |s.runs|
    ensures var s' := Perform(s, t, flag);
            && |s'.runs| == |s.runs| && s'.io == s.io
            && Evolves(s.runs[t.run], s'.runs[t.run], false, t.Advance?, t.Claim?)
  {
    if t.Advance? || t.Claim? { PerformStep(s, t, flag); } else { PerformRest(s, t, flag); }
  }

  lemma {:induction false} PerformStep(s: System, t: Task, flag: bool)
    requires t.run < |s.runs| && (t.Advance? || t.Claim?)
    ensures var s' := Perform(s, t, flag);
            && |s'.runs| == |s.runs| && s'.io == s.io
            && Evolves(s.runs[t.run], s'.runs[t.run], false, t.Advance?, t.Claim?)
  {
  }

  lemma {:induction false} PerformRest(s: System, t: Task, flag: bool)
    requires t.run < |s.runs| && !t.Advance? && !t.Claim?
    ensures var s' := Perform(s, t, flag);
            && |s'.runs| == |s.runs| && s'.io == s.io
            && Evolves(s.runs[t.run], s'.runs[t.run], false, false, false)
  {
    match t {
      case Invoke(_, _) => PerformInvoke(s, t, flag);
      case Complete(_, _) => PerformComplete(s, t, flag);
      case HandleTimeout(_, _) => PerformHandleTimeout(s, t, flag);
      case _ =>
    }
  }

  lemma {:induction false} PerformInvoke(s: System, t: Task, flag: bool)
    requires t.run < |s.runs| && t.Invoke?
    ensures var s' := Perform(s, t, flag);
            |s'.runs| == |s.runs| && s'.io == s.io && Evolves(s.runs[t.run], s'.runs[t.run], false, false, false)
  {
  }

  lemma {:induction false} PerformComplete(s: System, t: Task, flag: bool)
    requires t.run < |s.runs| && t.Complete?
    ensures var s' := Perform(s, t, flag);
            |s'.runs| == |s.runs| && s'.io == s.io && Evolves(s.runs[t.run], s'.runs[t.run], false, false, false)
  {
    var run := s.runs[t.run];
    var won := AddTask(WithRun(s, t.run, run.(finished := true)), Unregister(t.run, t.result));
    assert Perform(s, t, flag) == if run.finished then s else won;
    assert won.runs[t.run] == run.(finished := true);
  }

  lemma {:induction false} PerformHandleTimeout(s: System, t: Task, flag: bool)
    requires t.run < |s.runs| && t.HandleTimeout?
    ensures var s' := Perform(s, t, flag);
            |s'.runs| == |s.runs| && s'.io == s.io && Evolves(s.runs[t.run], s'.runs[t.run], false, false, false)
  {
  }

  lemma {:induction false} PerformOther(s: System, t: Task, flag: bool, q: nat)
    requires t.run < |s.runs| && q < |s.runs| && q != t.run
    ensures var s' := Perform(s, t, flag);
            |s'.runs| == |s.runs| && s'.io == s.io && s'.runs[q] == s.runs[q]
  {
  }

  lemma {:induction false} TimerEvolves(s: System, r: nat, completes: bool, q: nat)
    requires r < |s.runs| && q < |s.runs|
    ensures var s' := TimerFires(s, r, completes);
            |s'.runs| == |s.runs| && s'.io == s.io && Evolves(s.runs[q], s'.runs[q], false, false, false)
  {
  }

  /** Events that only queue a thread or set a flag of the chain. */
  lemma {:induction false} QuietEventRuns(s: System, e: Event)
    requires Enabled(s, e) && !e.Do? && !e.GlobalTimerFires? && !e.MiddlewareTimerFires? && !e.Arm? && !e.Start?
    ensures Apply(s, e).runs == s.runs && Apply(s, e).io == (s.io || e.SetIoContext?)
  {
  }

  lemma {:induction false} EventEvolves(s: System, e: Event, q: nat)
    requires Enabled(s, e) && q < |s.runs| && !e.Start?
    ensures var s' := Apply(s, e);
            && |s'.runs| == |s.runs| && s'.io == (s.io || e.SetIoContext?)
            && Evolves(s.runs[q], s'.runs[q], e.Arm? && e.run == q && s.io && !s.runs[q].sync,
                       e.Do? && e.task == Advance(q), e.Do? && e.task == Claim(q))
  {
    match e {
      case Do(t, flag) => PerformEvolves(s.(tasks := s.tasks - multiset{t}), t, flag, q);
      case GlobalTimerFires(r) => TimerEvolves(s, r, true, q);
      case MiddlewareTimerFires(r) => TimerEvolves(s, r, false, q);
      case Arm(r, _) =>
      case _ => QuietEventRuns(s, e);
    }
  }

  // ---- Stopping ----

  /** `r` is cancelled or timed out, and no step is inside its critical section. */
  ghost predicate Stopped(s: System, r: nat) {
    r < |s.runs| && s.runs[r].Stopping() && !s.runs[r].held
  }

  lemma {:induction false} StoppedStays(s: System, e: Event, r: nat)
    requires Inv(s) && Enabled(s, e) && Stopped(s, r)
    ensures Stopped(Apply(s, e), r) && Apply(s, e).runs[r].claims == s.runs[r].claims
  {
    assert RunInv(s, r);
    assert Claim(r) !in s.tasks;
    if !e.Start? { EventEvolves(s, e, r); }
  }

  /**
   Once `cancelled` or `timed_out` is set and the mutex is free, no further position is claimed,
   whatever happens afterwards.
   */
  lemma {:induction false} NoClaimOnceStopped(s: System, es: seq<Event>, r: nat)
    requires Inv(s) && IsTrace(s, es) && Stopped(s, r)
    ensures Stopped(After(s, es), r) && After(s, es).runs[r].claims == s.runs[r].claims
    decreases |es|
  {
    if es != [] {
      StepKeeps(s, es[0]);
      StoppedStays(s, es[0], r);
      NoClaimOnceStopped(Apply(s, es[0]), es[1..], r);
    }
  }

  ghost predicate ClaimsLater(s: System, r: nat)
    requires r < |s.runs|
  {
    exists es :: IsTrace(s, es) && r < |After(s, es).runs| && After(s, es).runs[r].claims != s.runs[r].claims
  }

  /** Exactly when a stopping run can still lose a position: while a step holds its mutex past the check. */
  lemma {:induction false} LateClaimExactly(s: System, r: nat)
    requires Inv(s) && r < |s.runs| && s.runs[r].Stopping()
    ensures ClaimsLater(s, r) <==> s.runs[r].held
  {
    if s.runs[r].held {
      assert RunInv(s, r);
      var e := Do(Claim(r), false);
      assert IsTrace(Apply(s, e), [e][1..]);
      assert IsTrace(s, [e]) && After(s, [e]) == Apply(s, e);
    } else {
      forall es | IsTrace(s, es) ensures r < |After(s, es).runs| && After(s, es).runs[r].claims == s.runs[r].claims {
        NoClaimOnceStopped(s, es, r);
      }
    }
  }

  // ---- Cancelling ----

  /** `cancel` has a thread on its way to the flag of `r`, or the flag is set. */
  ghost predicate Cancelling(s: System, r: nat) {
    r < |s.runs| && (SetCancelled(r) in s.tasks || s.runs[r].cancelled)
  }

  lemma {:induction false} ActiveIsQueued(active: seq<nat>, r: nat)
    requires r in active
    ensures SetCancelled(r) in CancelTasks(active)
    decreases |active|
  {
    if active[0] != r { ActiveIsQueued(active[1..], r); }
  }

  lemma {:induction false} CancellingStays(s: System, e: Event, r: nat)
    requires Inv(s) && Enabled(s, e) && Cancelling(s, r)
    ensures Cancelling(Apply(s, e), r)
  {
    if !e.Start? { EventEvolves(s, e, r); }
    if !s.runs[r].cancelled { SetCancelledKept(s, e, r); }
  }

  /** A pending flag of `cancel` is set by its own thread, and by no other step taken off. */
  lemma {:induction false} SetCancelledKept(s: System, e: Event, r: nat)
    requires Enabled(s, e) && r < |s.runs| && SetCancelled(r) in s.tasks
    ensures SetCancelled(r) in Apply(s, e).tasks || (r < |Apply(s, e).runs| && Apply(s, e).runs[r].cancelled)
  {
    if e.Do? { TaskKeepsCancel(s, e.task, e.flag, r); }
  }

  lemma {:induction false} TaskKeepsCancel(s: System, t: Task, flag: bool, r: nat)
    requires Enabled(s, Do(t, flag)) && r < |s.runs| && SetCancelled(r) in s.tasks
    ensures var s' := Apply(s, Do(t, flag)); SetCancelled(r) in s'.tasks || (r < |s'.runs| && s'.runs[r].cancelled)
  {
    var less := s.(tasks := s.tasks - multiset{t});
    if t == SetCancelled(r) {
      assert Perform(less, t, flag) == WithRun(less, r, s.runs[r].(cancelled := true));
    } else {
      assert SetCancelled(r) in less.tasks;
      PerformAdds(less, t, flag, SetCancelled(r));
    }
  }

  /** A thread's step takes no other thread away. */
  lemma {:induction false} PerformAdds(s: System, t: Task, flag: bool, u: Task)
    requires t.run < |s.runs| && u in s.tasks
    ensures u in Perform(s, t, flag).tasks
  {
  }

  lemma {:induction false} CancellingStaysLater(s: System, es: seq<Event>, r: nat)
    requires Inv(s) && IsTrace(s, es) && Cancelling(s, r)
    ensures Cancelling(After(s, es), r)
    decreases |es|
  {
    if es != [] {
      StepKeeps(s, es[0]);
      CancellingStays(s, es[0], r);
      CancellingStaysLater(Apply(s, es[0]), es[1..], r);
    }
  }

  /** After `cancel`, in every continuation in which its threads are through, each run that was active is cancelled. */
  lemma {:induction false} CancelReachesActiveRuns(s: System, es: seq<Event>, r: nat)
    requires Inv(s) && r in s.active && IsTrace(Apply(s, CancelAll), es)
    requires SetCancelled(r) !in After(Apply(s, CancelAll), es).tasks
    ensures var s' := After(Apply(s, CancelAll), es); r < |s'.runs| && s'.runs[r].cancelled
  {
    ActiveIsQueued(s.active, r);
    StepKeeps(s, CancelAll);
    CancellingStaysLater(Apply(s, CancelAll), es, r);
  }

  /** A thread that can complete `r` with `Stop` only. */
  predicate Stopping(t: Task) {
    match t
    case Advance(_) => true
    case Claim(_) => true
    case Invoke(_, _) => true
    case ReadCancelled(_) => true
    case SetCancelled(_) => true
    case HandleTimeout(_, completes) => !completes
    case Complete(_, result) => result == Stop
    case Unregister(_, result) => result == Stop
    case Fire(_, result) => result == Stop
    case ReadTimedOut(_) => false
  }

  /** `r` is cancelled, and nothing but `Stop` is on its way to its callback or has been given to it. */
  ghost predicate StopsOnly(s: System, r: nat) {
    && r < |s.runs| && s.runs[r].cancelled && !s.runs[r].sync
    && (forall t :: t in s.tasks && t.run == r ==> Stopping(t))
    && (forall x :: x in s.runs[r].completions ==> x == Stop)
  }

  /** A body's own final result, a throw, and the timeouts that complete a run. */
  predicate BringsResult(s: System, e: Event, r: nat)
    requires r < |s.runs|
  {
    match e
    case Report(q, _, result) => q == r && result != Continue && result != Stop
    case Throw(q, _) => q == r
    case Refuse(q, _, _) => q == r
    case GlobalTimerFires(q) => q == r
    case Do(t, flag) => t == Claim(r) && s.runs[r].lazy && flag
    case _ => false
  }

  lemma {:induction false} StopsOnlyStays(s: System, e: Event, r: nat)
    requires Inv(s) && Enabled(s, e) && StopsOnly(s, r) && !BringsResult(s, e, r)
    ensures StopsOnly(Apply(s, e), r)
  {
    match e {
      case Do(t, flag) => TaskStopsOnly(s, t, flag, r);
      case CancelAll => forall t | t in CancelTasks(s.active) ensures t.SetCancelled? { CancelTasksOnly(s.active, t); }
      case GlobalTimerFires(q) => TimerStopsOnly(s, q, true, r);
      case MiddlewareTimerFires(q) => TimerStopsOnly(s, q, false, r);
      case _ => RestStopsOnly(s, e, r);
    }
  }

  lemma {:induction false} TimerStopsOnly(s: System, q: nat, completes: bool, r: nat)
    requires q < |s.runs| && StopsOnly(s, r) && (completes ==> q != r)
    ensures StopsOnly(TimerFires(s, q, completes), r)
  {
  }

  lemma {:induction false} RestStopsOnly(s: System, e: Event, r: nat)
    requires Enabled(s, e) && StopsOnly(s, r) && !BringsResult(s, e, r)
    requires !e.Do? && !e.CancelAll? && !e.GlobalTimerFires? && !e.MiddlewareTimerFires?
    ensures StopsOnly(Apply(s, e), r)
  {
    if e.Start? {
      StartStopsOnly(s, e, r);
    } else if e.Arm? || e.Refuse? {
      ArmOrRefuseStopsOnly(s, e, r);
    } else {
      assert Apply(s, e).runs == s.runs;
    }
  }

  lemma {:induction false} StartStopsOnly(s: System, e: Event, r: nat)
    requires e.Start? && StopsOnly(s, r)
    ensures StopsOnly(Apply(s, e), r)
  {
    assert Apply(s, e).runs[r] == s.runs[r];
  }

  lemma {:induction false} ArmOrRefuseStopsOnly(s: System, e: Event, r: nat)
    requires Enabled(s, e) && StopsOnly(s, r) && (e.Arm? || e.Refuse?) && !BringsResult(s, e, r)
    ensures StopsOnly(Apply(s, e), r)
  {
  }

  lemma {:induction false} TaskStopsOnly(s: System, t: Task, flag: bool, r: nat)
    requires Enabled(s, Do(t, flag)) && StopsOnly(s, r) && !BringsResult(s, Do(t, flag), r)
    ensures StopsOnly(Apply(s, Do(t, flag)), r)
  {
    var less := s.(tasks := s.tasks - multiset{t});
    if t.run == r {
      OwnTaskStopsOnly(less, t, flag);
    } else {
      OtherTaskLeaves(less, t, flag, r);
    }
  }

  lemma {:induction false} OwnTaskStopsOnly(s: System, t: Task, flag: bool)
    requires StopsOnly(s, t.run) && Stopping(t) && !(t.Claim? && s.runs[t.run].lazy && flag)
    ensures StopsOnly(Perform(s, t, flag), t.run)
  {
    if t.Advance? || t.Claim? || t.Invoke? || t.ReadCancelled? {
      StepStopsOnly(s, t, flag);
    } else {
      FinishStopsOnly(s, t, flag);
    }
  }

  lemma {:induction false} StepStopsOnly(s: System, t: Task, flag: bool)
    requires StopsOnly(s, t.run) && !(t.Claim? && s.runs[t.run].lazy && flag)
    requires t.Advance? || t.Claim? || t.Invoke? || t.ReadCancelled?
    ensures StopsOnly(Perform(s, t, flag), t.run)
  {
  }

  lemma {:induction false} FinishStopsOnly(s: System, t: Task, flag: bool)
    requires StopsOnly(s, t.run) && Stopping(t)
    requires !t.Advance? && !t.Claim? && !t.Invoke? && !t.ReadCancelled?
    ensures StopsOnly(Perform(s, t, flag), t.run)
  {
  }

  /**
   A cancelled run reports `Stop`: over every continuation in which no body brings a result of its
   own, nothing throws and no timeout completes it, its callback gets `Stop` and nothing else.
   */
  lemma {:induction false} CancelledReportsStop(s: System, es: seq<Event>, r: nat)
    requires Inv(s) && IsTrace(s, es) && StopsOnly(s, r)
    requires forall i :: 0 <= i < |es| ==> QuietAt(s, es, i, r)
    ensures StopsOnly(After(s, es), r)
    decreases |es|
  {
    if es != [] {
      var rest := es[1..];
      assert QuietAt(s, es, 0, r) && es[..0] == [];
      StepKeeps(s, es[0]);
      StopsOnlyStays(s, es[0], r);
      forall i | 0 <= i < |rest| ensures QuietAt(Apply(s, es[0]), rest, i, r) {
        assert QuietAt(s, es, i + 1, r);
        assert es[..i + 1] == [es[0]] + rest[..i];
      }
      CancelledReportsStop(Apply(s, es[0]), rest, r);
    }
  }

  /** Event `i` of the trace brings `r` no result. */
  ghost predicate QuietAt(s: System, es: seq<Event>, i: nat, r: nat)
    requires i < |es|
  {
    IsTrace(s, es[..i]) && r < |After(s, es[..i]).runs| && !BringsResult(After(s, es[..i]), es[i], r)
  }

  // ---- What a run completes with ----

  /** Winning the exchange, leaving the active runs, calling the callback. */
  lemma {:induction false} ExchangeWon(s: System, r: nat, x: Result)
    requires r < |s.runs| && Complete(r, x) in s.tasks && !s.runs[r].finished
    ensures var s' := Apply(s, Do(Complete(r, x), false));
            r < |s'.runs| && s'.runs[r] == s.runs[r].(finished := true) && Unregister(r, x) in s'.tasks
  {
  }

  lemma {:induction false} RunLeft(s: System, r: nat, x: Result)
    requires r < |s.runs| && Unregister(r, x) in s.tasks
    ensures var s' := Apply(s, Do(Unregister(r, x), false));
            r < |s'.runs| && s'.runs[r] == s.runs[r] && Fire(r, x) in s'.tasks
  {
  }

  lemma {:induction false} CallbackCalled(s: System, r: nat, x: Result)
    requires r < |s.runs| && Fire(r, x) in s.tasks
    ensures var s' := Apply(s, Do(Fire(r, x), false));
            r < |s'.runs| && s'.runs[r] == s.runs[r].(completions := s.runs[r].completions + [x])
  {
  }

  /** A thread about to complete an unfinished run gives its callback that result. */
  lemma {:induction false} ResultFires(s: System, r: nat, x: Result) returns (s': System)
    requires r < |s.runs| && Complete(r, x) in s.tasks && !s.runs[r].finished
    ensures Reaches(s, s') && r < |s'.runs| && s'.runs[r].completions == s.runs[r].completions + [x]
    ensures s'.runs[r].timeouts == s.runs[r].timeouts
  {
    ExchangeWon(s, r, x);
    var s1 := Apply(s, Do(Complete(r, x), false));
    RunLeft(s1, r, x);
    var s2 := Apply(s1, Do(Unregister(r, x), false));
    CallbackCalled(s2, r, x);
    s' := Apply(s2, Do(Fire(r, x), false));
    Here(s');
    Then(s2, Do(Fire(r, x), false), s', s');
    Then(s1, Do(Unregister(r, x), false), s2, s');
    Then(s, Do(Complete(r, x), false), s1, s');
  }

  /** A step that may not advance completes its run: `Stop` when cancelled, else `Timeout` when timed out, else `Continue`. */
  lemma {:induction false} StoppedStepCompletes(s: System, r: nat) returns (s': System)
    requires r < |s.runs| && Advance(r) in s.tasks && !s.runs[r].held && !s.runs[r].finished && !s.runs[r].sync
    requires s.runs[r].cancelled || s.runs[r].timedOut || s.paused || s.runs[r].index >= s.runs[r].size
    ensures Reaches(s, s') && r < |s'.runs|
    ensures s'.runs[r].completions == s.runs[r].completions +
            if s.runs[r].cancelled then [Stop] else if s.runs[r].timedOut then [Timeout] else [Continue]
  {
    var s1 := Apply(s, Do(Advance(r), false));
    assert s1.runs[r] == s.runs[r] && ReadCancelled(r) in s1.tasks;
    s' := FlagsRead(s1, r);
    Then(s, Do(Advance(r), false), s1, s');
  }

  lemma {:induction false} FlagsRead(s: System, r: nat) returns (s': System)
    requires r < |s.runs| && ReadCancelled(r) in s.tasks && !s.runs[r].finished
    ensures Reaches(s, s') && r < |s'.runs|
    ensures s'.runs[r].completions == s.runs[r].completions +
            if s.runs[r].cancelled then [Stop] else if s.runs[r].timedOut then [Timeout] else [Continue]
  {
    var s1 := Apply(s, Do(ReadCancelled(r), false));
    assert s1.runs[r] == s.runs[r];
    if s.runs[r].cancelled {
      s' := ResultFires(s1, r, Stop);
    } else {
      assert ReadTimedOut(r) in s1.tasks;
      var x := if s.runs[r].timedOut then Timeout else Continue;
      var s2 := Apply(s1, Do(ReadTimedOut(r), false));
      assert s2.runs[r] == s.runs[r] && Complete(r, x) in s2.tasks;
      s' := ResultFires(s2, r, x);
      Then(s1, Do(ReadTimedOut(r), false), s2, s');
    }
    Then(s, Do(ReadCancelled(r), false), s1, s');
  }

  /** Pausing the chain makes the next step of a run complete it with `Continue`. */
  lemma {:induction false} PausedStepCompletes(s: System, r: nat) returns (s': System)
    requires r < |s.runs| && Advance(r) in s.tasks && !s.runs[r].held && !s.runs[r].finished && !s.runs[r].sync
    requires !s.runs[r].cancelled && !s.runs[r].timedOut
    ensures Reaches(s, s') && r < |s'.runs| && s'.runs[r].completions == s.runs[r].completions + [Continue]
  {
    var s1 := s.(paused := true);
    s' := StoppedStepCompletes(s1, r);
    Then(s, SetPaused(true), s1, s');
  }

  /** A report completes with its own result, a throw with `Error`. */
  lemma {:induction false} BodyCompletes(s: System, r: nat, pos: nat, x: Result) returns (reported: System, thrown: System)
    requires Started(s, r, pos) && !s.runs[r].finished && !s.runs[r].sync && x != Continue
    ensures Reaches(s, reported) && r < |reported.runs| && reported.runs[r].completions == s.runs[r].completions + [x]
    ensures Reaches(s, thrown) && r < |thrown.runs| && thrown.runs[r].completions == s.runs[r].completions + [Error]
  {
    var s1, s2 := AddTask(s, Complete(r, x)), AddTask(s, Complete(r, Error));
    reported := ResultFires(s1, r, x);
    thrown := ResultFires(s2, r, Error);
    Then(s, Report(r, pos, x), s1, reported);
    Then(s, Throw(r, pos), s2, thrown);
  }

  /** The global timer completes with `Timeout`, after one call of the timeout handler. */
  lemma {:induction false} GlobalTimerCompletes(s: System, r: nat) returns (s': System)
    requires r < |s.runs| && s.runs[r].globalTimer && !s.runs[r].timedOut && !s.runs[r].finished
    ensures Reaches(s, s') && r < |s'.runs|
    ensures s'.runs[r].completions == s.runs[r].completions + [Timeout] && s'.runs[r].timeouts == s.runs[r].timeouts + 1
  {
    var run := s.runs[r];
    var s1 := Apply(s, GlobalTimerFires(r));
    assert s1.runs[r] == run.(timedOut := true) && HandleTimeout(r, true) in s1.tasks;
    var s2 := Apply(s1, Do(HandleTimeout(r, true), false));
    assert s2.runs[r] == run.(timedOut := true, timeouts := run.timeouts + 1) && Complete(r, Timeout) in s2.tasks;
    s' := ResultFires(s2, r, Timeout);
    Then(s1, Do(HandleTimeout(r, true), false), s2, s');
    Then(s, GlobalTimerFires(r), s1, s');
  }

  /** A run of an empty pipeline completes at once with `Continue` and is never active. */
  lemma {:induction false} EmptyRunCompletes(s: System, sync: bool, globalTimeout: bool)
    requires Inv(s)
    ensures var s' := Apply(s, Start(0, sync, globalTimeout));
            && |s'.runs| == |s.runs| + 1 && s'.active == s.active && s'.tasks == s.tasks
            && s'.runs[|s.runs|].finished && s'.runs[|s.runs|].completions == [Continue]
  {
  }

  // ---- A run whose time is up ----

  /** `r` is timed out and unfinished, and no thread of the chain is at work on it. */
  ghost predicate Dormant(s: System, r: nat) {
    && r < |s.runs| && s.runs[r].timedOut && !s.runs[r].finished
    && forall t :: t in s.tasks && t.run == r ==> t.SetCancelled?
  }

  /** What bodies, and the caller of `execute`, do to a run. */
  predicate Wakes(e: Event, r: nat) {
    match e
    case Next(q, _) => q == r
    case Report(q, _, _) => q == r
    case Throw(q, _) => q == r
    case FinishSync(q) => q == r
    case _ => false
  }

  lemma {:induction false} DormantStays(s: System, e: Event, r: nat)
    requires Inv(s) && Enabled(s, e) && Dormant(s, r) && !Wakes(e, r)
    ensures Dormant(Apply(s, e), r) && Apply(s, e).runs[r].ran == s.runs[r].ran && Apply(s, e).runs[r].sync == s.runs[r].sync
  {
    match e {
      case Do(t, flag) => TaskLeavesDormant(s, t, flag, r);
      case CancelAll => CancelLeaves(s, r);
      case Start(_, _, _) => StartLeavesDormant(s, e, r);
      case GlobalTimerFires(q) => TimerLeavesDormant(s, q, true, r);
      case MiddlewareTimerFires(q) => TimerLeavesDormant(s, q, false, r);
      case _ => RestLeavesDormant(s, e, r);
    }
  }

  lemma {:induction false} TaskLeavesDormant(s: System, t: Task, flag: bool, r: nat)
    requires Enabled(s, Do(t, flag)) && Dormant(s, r)
    ensures var s' := Apply(s, Do(t, flag));
            Dormant(s', r) && s'.runs[r].ran == s.runs[r].ran && s'.runs[r].sync == s.runs[r].sync
  {
    var less := s.(tasks := s.tasks - multiset{t});
    if t.run == r {
      assert Perform(less, t, flag) == WithRun(less, r, s.runs[r].(cancelled := true));
    } else {
      OtherTaskLeaves(less, t, flag, r);
    }
  }

  lemma {:induction false} StartLeavesDormant(s: System, e: Event, r: nat)
    requires e.Start? && Dormant(s, r)
    ensures Dormant(Apply(s, e), r) && Apply(s, e).runs[r] == s.runs[r]
  {
  }

  lemma {:induction false} TimerLeavesDormant(s: System, q: nat, completes: bool, r: nat)
    requires q < |s.runs| && Dormant(s, r)
    ensures Dormant(TimerFires(s, q, completes), r) && TimerFires(s, q, completes).runs[r] == s.runs[r]
  {
  }

  /** Bodies of other runs, timers being set, and the chain's flags. */
  lemma {:induction false} RestLeavesDormant(s: System, e: Event, r: nat)
    requires Enabled(s, e) && Dormant(s, r) && !Wakes(e, r)
    requires !e.Do? && !e.CancelAll? && !e.Start? && !e.GlobalTimerFires? && !e.MiddlewareTimerFires?
    ensures Dormant(Apply(s, e), r) && Apply(s, e).runs[r].ran == s.runs[r].ran && Apply(s, e).runs[r].sync == s.runs[r].sync
  {
    if e.Arm? || e.Refuse? { ArmOrRefuseLeavesDormant(s, e, r); } else { assert Apply(s, e).runs == s.runs; }
  }

  lemma {:induction false} ArmOrRefuseLeavesDormant(s: System, e: Event, r: nat)
    requires Enabled(s, e) && Dormant(s, r) && (e.Arm? || e.Refuse?)
    ensures Dormant(Apply(s, e), r) && Apply(s, e).runs[r].ran == s.runs[r].ran && Apply(s, e).runs[r].sync == s.runs[r].sync
  {
    assert e.Refuse? ==> e.run != r;
  }

  /** A thread of another run queues threads of that run only. */
  lemma {:induction false} OtherTaskLeaves(s: System, t: Task, flag: bool, r: nat)
    requires t.run < |s.runs| && r < |s.runs| && t.run != r
    ensures var s' := Perform(s, t, flag);
            |s'.runs| == |s.runs| && s'.runs[r] == s.runs[r] && forall u: Task :: u.run == r ==> s'.tasks[u] == s.tasks[u]
  {
  }

  lemma {:induction false} CancelLeaves(s: System, r: nat)
    requires Dormant(s, r)
    ensures Dormant(Apply(s, CancelAll), r)
  {
    forall t | t in CancelTasks(s.active) ensures t.SetCancelled? { CancelTasksOnly(s.active, t); }
  }

  /**
   A timeout does not complete a run. Over every continuation in which no started body calls `next`,
   reports or throws, and `execute` does not return, it stays unfinished.
   */
  lemma {:induction false} OnlyBodiesFinish(s: System, es: seq<Event>, r: nat)
    requires Inv(s) && IsTrace(s, es) && Dormant(s, r) && forall i :: 0 <= i < |es| ==> !Wakes(es[i], r)
    ensures Dormant(After(s, es), r)
    decreases |es|
  {
    if es != [] {
      StepKeeps(s, es[0]);
      DormantStays(s, es[0], r);
      OnlyBodiesFinish(Apply(s, es[0]), es[1..], r);
    }
  }

  ghost predicate FinishesLater(s: System, r: nat) {
    exists s' :: Reaches(s, s') && r < |s'.runs| && s'.runs[r].finished
  }

  /** Without a started body, nothing can wake an asynchronous run. */
  lemma {:induction false} NothingToWake(s: System, es: seq<Event>, r: nat)
    requires Inv(s) && IsTrace(s, es) && Dormant(s, r) && !s.runs[r].sync && s.runs[r].ran == []
    ensures Dormant(After(s, es), r)
    decreases |es|
  {
    if es != [] {
      assert !Wakes(es[0], r);
      StepKeeps(s, es[0]);
      DormantStays(s, es[0], r);
      NothingToWake(Apply(s, es[0]), es[1..], r);
    }
  }

  /** A thread about to finish an unfinished run does. */
  lemma {:induction false} WokenRunFinishes(s: System, e: Event, r: nat, result: Result)
    requires Enabled(s, e) && r < |s.runs| && !s.runs[r].finished && Apply(s, e) == AddTask(s, Complete(r, result))
    ensures FinishesLater(s, r)
  {
    var s1, last := Apply(s, e), Do(Complete(r, result), false);
    CompleteFinishes(s1, r, result);
    Here(Apply(s1, last));
    Then(s1, last, Apply(s1, last), Apply(s1, last));
    Then(s, e, s1, Apply(s1, last));
  }

  lemma {:induction false} CompleteFinishes(s: System, r: nat, result: Result)
    requires r < |s.runs| && !s.runs[r].finished && Complete(r, result) in s.tasks
    ensures var s' := Apply(s, Do(Complete(r, result), false)); r < |s'.runs| && s'.runs[r].finished
  {
    var less := s.(tasks := s.tasks - multiset{Complete(r, result)});
    var won := AddTask(WithRun(less, r, s.runs[r].(finished := true)), Unregister(r, result));
    assert Perform(less, Complete(r, result), false) == won;
    assert won.runs[r] == s.runs[r].(finished := true);
  }

  /** Exactly when a timed-out run can still finish: a body was started, or `execute` is to return. */
  lemma {:induction false} TimedOutFinishesExactly(s: System, r: nat)
    requires Inv(s) && Dormant(s, r)
    ensures FinishesLater(s, r) <==> s.runs[r].sync || s.runs[r].ran != []
  {
    if s.runs[r].sync {
      WokenRunFinishes(s, FinishSync(r), r, Continue);
    } else if s.runs[r].ran != [] {
      var pos := s.runs[r].ran[0];
      WokenRunFinishes(s, Report(r, pos, Stop), r, Stop);
    } else {
      forall s' | Reaches(s, s') ensures r < |s'.runs| && !s'.runs[r].finished {
        var es :| IsTrace(s, es) && After(s, es) == s';
        NothingToWake(s, es, r);
      }
    }
  }

  // ---- The timeout handler ----

  /** At most twice always; twice only in a run of at least two positions that checks lazily and had a timer armed. */
  lemma {:induction false} TimeoutHandlerBound(io: bool, es: seq<Event>, r: nat)
    requires IsTrace(Initial(io), es) && r < |After(Initial(io), es).runs|
    ensures var run := After(Initial(io), es).runs[r];
            run.timeouts <= 2 && (run.timeouts == 2 ==> run.lazy && run.armed && !run.sync && run.size >= 2)
  {
    TraceKeeps(Initial(io), es);
    assert RunInv(After(Initial(io), es), r);
  }

  /** With a fixed io_context, lazy checking and armed timers never meet in one run. */
  ghost predicate IoOk(run: Run, io: bool) {
    && !(run.lazy && run.armed)
    && (run.armed ==> io)
    && (io && run.lazy ==> run.sync)
    && (run.sync ==> !run.armed)
  }

  ghost predicate IoInv(s: System) {
    forall r: nat :: r < |s.runs| ==> IoOk(s.runs[r], s.io)
  }

  lemma {:induction false} IoOkStays(s: System, e: Event, q: nat)
    requires q < |s.runs| && IoOk(s.runs[q], s.io) && Enabled(s, e) && !e.SetIoContext? && !e.Start?
    ensures |Apply(s, e).runs| == |s.runs| && IoOk(Apply(s, e).runs[q], Apply(s, e).io)
  {
    EventEvolves(s, e, q);
  }

  lemma {:induction false} IoInvStays(s: System, e: Event)
    requires IoInv(s) && Enabled(s, e) && !e.SetIoContext?
    ensures IoInv(Apply(s, e))
  {
    var s' := Apply(s, e);
    if e.Start? {
      assert s'.runs == s.runs + [NewRun(e.size, e.sync, e.globalTimeout, s.io)] && s'.io == s.io;
    } else {
      OldRunsStayOk(s, e);
    }
  }

  lemma {:induction false} OldRunsStayOk(s: System, e: Event)
    requires IoInv(s) && Enabled(s, e) && !e.SetIoContext? && !e.Start?
    ensures IoInv(Apply(s, e))
  {
    RunsStay(s, e);
    forall q: nat | q < |Apply(s, e).runs| ensures IoOk(Apply(s, e).runs[q], Apply(s, e).io) {
      IoOkStays(s, e, q);
    }
  }

  lemma {:induction false} RunsStay(s: System, e: Event)
    requires Enabled(s, e) && !e.Start?
    ensures |Apply(s, e).runs| == |s.runs|
  {
    if s.runs == [] { NoRunsStay(s, e); } else { EventEvolves(s, e, 0); }
  }

  lemma {:induction false} NoRunsStay(s: System, e: Event)
    requires Enabled(s, e) && !e.Start? && s.runs == []
    ensures Apply(s, e).runs == []
  {
  }

  lemma {:induction false} IoInvOfTrace(s: System, es: seq<Event>)
    requires IoInv(s) && IsTrace(s, es) && forall i :: 0 <= i < |es| ==> !es[i].SetIoContext?
    ensures IoInv(After(s, es))
    decreases |es|
  {
    if es != [] {
      IoInvStays(s, es[0]);
      IoInvOfTrace(Apply(s, es[0]), es[1..]);
    }
  }

  /** When the io_context is not replaced, the timeout handler runs at most once per run. */
  lemma {:induction false} TimeoutHandledAtMostOnce(io: bool, es: seq<Event>, r: nat)
    requires IsTrace(Initial(io), es) && r < |After(Initial(io), es).runs|
    requires forall i :: 0 <= i < |es| ==> !es[i].SetIoContext?
    ensures After(Initial(io), es).runs[r].timeouts <= 1
  {
    TimeoutHandlerBound(io, es, r);
    IoInvOfTrace(Initial(io), es);
  }

  // ---- The handler can run twice when the io_context is set during a run ----

  ghost predicate Reaches(s: System, s': System) {
    exists es :: IsTrace(s, es) && After(s, es) == s'
  }

  lemma {:induction false} Here(s: System)
    ensures Reaches(s, s)
  {
    assert IsTrace(s, []) && After(s, []) == s;
  }

  /** One step, then the rest. */
  lemma {:induction false} Then(s: System, e: Event, s': System, end: System)
    requires Enabled(s, e) && Apply(s, e) == s' && Reaches(s', end)
    ensures Reaches(s, end)
  {
    var es :| IsTrace(s', es) && After(s', es) == end;
    assert ([e] + es)[1..] == es;
    assert IsTrace(s, [e] + es) && After(s, [e] + es) == end;
  }

  /** A system with one run. */
  function Lone(run: Run, tasks: multiset<Task>): System { System([run], [0], false, true, tasks) }

  lemma {:induction false} HandlerStep(run: Run, completes: bool, rest: multiset<Task>)
    ensures var t := HandleTimeout(0, completes);
            Apply(Lone(run, rest + multiset{t}), Do(t, false)) ==
            Lone(run.(timeouts := run.timeouts + 1), if completes then rest + multiset{Complete(0, Timeout)} else rest)
  {
    assert rest + multiset{HandleTimeout(0, completes)} - multiset{HandleTimeout(0, completes)} == rest;
  }

  lemma {:induction false} HandlerRuns(run: Run, completes: bool, rest: multiset<Task>, end: System)
    requires Reaches(Lone(run.(timeouts := run.timeouts + 1),
                          if completes then rest + multiset{Complete(0, Timeout)} else rest), end)
    ensures Reaches(Lone(run, rest + multiset{HandleTimeout(0, completes)}), end)
  {
    HandlerStep(run, completes, rest);
    var s := Lone(run, rest + multiset{HandleTimeout(0, completes)});
    Then(s, Do(HandleTimeout(0, completes), false), Apply(s, Do(HandleTimeout(0, completes), false)), end);
  }

  /** The timer fires between the check and the store of a step that finds its time used up. */
  lemma {:induction false} TimerInsideCriticalSection(run: Run, end: System)
    requires run.lazy && run.armed && run.held && !run.timedOut && !run.sync
    requires Reaches(Lone(run.(held := false, timedOut := true),
                          multiset{HandleTimeout(0, false)} + multiset{HandleTimeout(0, true)}), end)
    ensures Reaches(Lone(run, multiset{Claim(0)}), end)
  {
    var late := multiset{HandleTimeout(0, false)};
    var s1, s2 := Lone(run, multiset{Claim(0)}), Lone(run.(timedOut := true), multiset{Claim(0)} + late);
    var s3 := Lone(run.(held := false, timedOut := true), late + multiset{HandleTimeout(0, true)});
    assert Apply(s2, Do(Claim(0), true)) == s3 by { assert multiset{Claim(0)} + late - multiset{Claim(0)} == late; }
    Then(s2, Do(Claim(0), true), s3, end);
    Then(s1, MiddlewareTimerFires(0), s2, end);
  }

  lemma {:induction false} AdvancePasses(run: Run, end: System)
    requires run.size > run.index && !run.held && !run.Stopping()
    requires Reaches(Lone(run.(held := true), multiset{Claim(0)}), end)
    ensures Reaches(Lone(run, multiset{Advance(0)}), end)
  {
    var s := Lone(run, multiset{Advance(0)});
    assert multiset{Advance(0)} - multiset{Advance(0)} + multiset{Claim(0)} == multiset{Claim(0)};
    Then(s, Do(Advance(0), false), Lone(run.(held := true), multiset{Claim(0)}), end);
  }

  /** A started body arms its timer and calls `next`. */
  lemma {:induction false} BodyCallsNext(run: Run, end: System)
    requires run.ran == [0] && !run.sync
    requires Reaches(Lone(run.(armed := true), multiset{Advance(0)}), end)
    ensures Reaches(Lone(run, multiset{}), end)
  {
    var s1, s2 := Lone(run.(armed := true), multiset{}), Lone(run.(armed := true), multiset{Advance(0)});
    Then(s1, Next(0, 0), s2, end);
    Then(Lone(run, multiset{}), Arm(0, 0), s1, end);
  }

  /** The first position is claimed and its body starts. */
  lemma {:induction false} FirstBodyStarts(run: Run, end: System)
    requires run.size > 0 && run.index == 0 && run.claims == [] && run.ran == [] && run.held && !run.Stopping()
    requires Reaches(Lone(run.(held := false, index := 1, claims := [0], ran := [0]), multiset{}), end)
    ensures Reaches(Lone(run, multiset{Claim(0)}), end)
  {
    var taken := run.(held := false, index := 1, claims := [0]);
    var s1, s2 := Lone(run, multiset{Claim(0)}), Lone(taken, multiset{Invoke(0, 0)});
    assert [] + [0] == [0];
    Then(s2, Do(Invoke(0, 0), true), Lone(taken.(ran := [0]), multiset{}), end);
    Then(s1, Do(Claim(0), false), s2, end);
  }

  lemma {:induction false} LazyRunStarts(n: nat, end: System)
    requires n > 0 && Reaches(Lone(NewRun(n, false, true, false), multiset{Advance(0)}), end)
    ensures Reaches(Initial(false), end)
  {
    var run := NewRun(n, false, true, false);
    var s1 := System([run], [0], false, false, multiset{Advance(0)});
    Then(s1, SetIoContext, Lone(run, multiset{Advance(0)}), end);
    Then(Initial(false), Start(n, false, true), s1, end);
  }

  /**
   The timeout handler can run twice: in a pipeline of two or more, started with a global timeout
   and no io_context, when an io_context is set during the run. `next` cancels the timer of its
   middleware, so the timer's handler must be queued already when it does; `Next` here cancels nothing.
   */
  lemma {:induction false} TimeoutHandledTwice(n: nat) returns (s: System)
    requires n >= 2
    ensures Reaches(Initial(false), s) && |s.runs| == 1 && s.runs[0].timeouts == 2
    ensures s.runs[0].size == n && s.runs[0].lazy && !s.runs[0].sync
  {
    var begun := NewRun(n, false, true, false);
    var first := begun.(index := 1, claims := [0], ran := [0]);
    var armed := first.(armed := true);
    var late := armed.(timedOut := true);
    s := Lone(late.(timeouts := 2), multiset{Complete(0, Timeout)});
    Here(s);
    TwoHandlers(late, s);
    TimerInsideCriticalSection(armed.(held := true), s);
    AdvancePasses(armed, s);
    BodyCallsNext(first, s);
    FirstBodyStarts(begun.(held := true), s);
    AdvancePasses(begun, s);
    LazyRunStarts(n, s);
  }

  /** Some interleaving calls the timeout handler twice for a run of this kind. */
  ghost predicate HandledTwice(size: nat, sync: bool, lazy: bool) {
    exists io, es, r: nat :: IsTrace(Initial(io), es) && r < |After(Initial(io), es).runs|
      && var run := After(Initial(io), es).runs[r]; run.size == size && run.sync == sync && run.lazy == lazy && run.timeouts == 2
  }

  /**
   Exactly which runs can have their timeout handled twice: asynchronous ones of at least two
   positions that check the global timeout lazily, having been started without an io_context.
   */
  lemma {:induction false} HandledTwiceExactly(size: nat, sync: bool, lazy: bool)
    ensures HandledTwice(size, sync, lazy) <==> size >= 2 && !sync && lazy
  {
    if HandledTwice(size, sync, lazy) {
      var io, es, r: nat :| IsTrace(Initial(io), es) && r < |After(Initial(io), es).runs|
        && var run := After(Initial(io), es).runs[r]; run.size == size && run.sync == sync && run.lazy == lazy && run.timeouts == 2;
      TimeoutHandlerBound(io, es, r);
    }
    if size >= 2 && !sync && lazy {
      var s := TimeoutHandledTwice(size);
      var es :| IsTrace(Initial(false), es) && After(Initial(false), es) == s;
      assert After(Initial(false), es).runs[0].timeouts == 2;
    }
  }

  // ---- A middleware timeout leaves the run unfinished ----

  /** The timer of the first middleware fires and its handler runs: the run stays active, with no thread at work on it. */
  lemma {:induction false} MiddlewareTimeoutReached() returns (s: System)
    ensures Reaches(Initial(true), s) && |s.runs| == 1 && s.runs[0].timeouts == 1
    ensures !s.runs[0].finished && s.active == [0] && s.tasks == multiset{} && Dormant(s, 0)
  {
    var begun := NewRun(1, false, false, true);
    var started := begun.(index := 1, claims := [0], ran := [0]);
    s := Lone(started.(armed := true, timedOut := true, timeouts := 1), multiset{});
    Here(s);
    TimerAfterBody(started, s);
    FirstBodyStarts(begun.(held := true), s);
    AdvancePasses(begun, s);
    Then(Initial(true), Start(1, false, false), Lone(begun, multiset{Advance(0)}), s);
  }

  lemma {:induction false} TimerAfterBody(run: Run, end: System)
    requires run.ran == [0] && !run.sync && !run.timedOut && run.timeouts == 0
    requires Reaches(Lone(run.(armed := true, timedOut := true, timeouts := 1), multiset{}), end)
    ensures Reaches(Lone(run, multiset{}), end)
  {
    var armed := run.(armed := true);
    var late := armed.(timedOut := true);
    assert multiset{} + multiset{HandleTimeout(0, false)} == multiset{HandleTimeout(0, false)};
    HandlerRuns(late, false, multiset{}, end);
    Then(Lone(armed, multiset{}), MiddlewareTimerFires(0), Lone(late, multiset{HandleTimeout(0, false)}), end);
    Then(Lone(run, multiset{}), Arm(0, 0), Lone(armed, multiset{}), end);
  }

  // ---- A position can be claimed after the run was told to stop ----

  /** The global timer fires between the check and the claim of the first position. */
  lemma {:induction false} ClaimedLate() returns (s: System)
    ensures Reaches(Initial(true), s) && |s.runs| == 1 && s.runs[0].lateClaims == 1 && s.runs[0].claims == [0]
  {
    var begun := NewRun(1, false, true, true);
    var late := begun.(held := true, timedOut := true);
    s := Lone(late.(held := false, index := 1, claims := [0], lateClaims := 1),
              multiset{HandleTimeout(0, true)} + multiset{Invoke(0, 0)});
    Here(s);
    TakenWhileStopping(late, s);
    GlobalTimerInsideCriticalSection(begun.(held := true), s);
    AdvancePasses(begun, s);
    Then(Initial(true), Start(1, false, true), Lone(begun, multiset{Advance(0)}), s);
  }

  lemma {:induction false} TakenWhileStopping(run: Run, end: System)
    requires run.index == 0 && run.claims == [] && run.held && run.timedOut
    requires var taken := run.(held := false, index := 1, claims := [0], lateClaims := run.lateClaims + 1);
             Reaches(Lone(taken, multiset{HandleTimeout(0, true)} + multiset{Invoke(0, 0)}), end)
    ensures Reaches(Lone(run, multiset{Claim(0)} + multiset{HandleTimeout(0, true)}), end)
  {
    var fired := multiset{HandleTimeout(0, true)};
    var taken := run.(held := false, index := 1, claims := [0], lateClaims := run.lateClaims + 1);
    assert multiset{Claim(0)} + fired - multiset{Claim(0)} == fired && [] + [0] == [0];
    Then(Lone(run, multiset{Claim(0)} + fired), Do(Claim(0), false), Lone(taken, fired + multiset{Invoke(0, 0)}), end);
  }

  lemma {:induction false} GlobalTimerInsideCriticalSection(run: Run, end: System)
    requires run.globalTimer && !run.timedOut
    requires Reaches(Lone(run.(timedOut := true), multiset{Claim(0)} + multiset{HandleTimeout(0, true)}), end)
    ensures Reaches(Lone(run, multiset{Claim(0)}), end)
  {
    var fired := Lone(run.(timedOut := true), multiset{Claim(0)} + multiset{HandleTimeout(0, true)});
    Then(Lone(run, multiset{Claim(0)}), GlobalTimerFires(0), fired, end);
  }

  /** Two threads about to call the handler both do. */
  lemma {:induction false} TwoHandlers(run: Run, end: System)
    requires Reaches(Lone(run.(timeouts := run.timeouts + 2), multiset{Complete(0, Timeout)}), end)
    ensures Reaches(Lone(run, multiset{HandleTimeout(0, false)} + multiset{HandleTimeout(0, true)}), end)
  {
    var once := run.(timeouts := run.timeouts + 1);
    var done := multiset{Complete(0, Timeout)};
    assert once.(timeouts := once.timeouts + 1) == run.(timeouts := run.timeouts + 2);
    HandlerRuns(once, false, done, end);
    assert done + multiset{HandleTimeout(0, false)} == multiset{HandleTimeout(0, false)} + done;
    HandlerRuns(run, true, multiset{HandleTimeout(0, false)}, end);
  }
}

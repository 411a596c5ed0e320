/**
 The middleware pipeline under concurrency: any number of runs, threads interleaved at every
 atomic step. A pending `Task` is a thread about to take its next atomic step; an `Event` is one
 step of some thread, of a middleware body, of a timer, or of the chain's owner.
 */
module PipelineProtocol {

  datatype Result = Continue | Stop | Error | Timeout

  /** The per-run execution state, followed by the history that the theorems speak about. */
  datatype Run = Run(
    size: nat,              // length of the pipeline snapshot
    sync: bool,             // started by `execute` rather than `execute_async`
    lazy: bool,             // the global timeout is checked inside each step
    globalTimer: bool,      // the global timeout has a timer of its own
    index: nat,
    timedOut: bool,
    cancelled: bool,
    finished: bool,
    held: bool,             // `mu` is held by a step that passed its check
    armed: bool,            // a per-middleware timer was set
    claims: seq<nat>,       // positions taken from the pipeline, in order
    ran: seq<nat>,          // positions whose body was started
    lateClaims: nat,        // claims made with `cancelled` or `timedOut` already set
    completions: seq<Result>,
    timeouts: nat)          // times the timeout handler ran
  {
    predicate Stopping() { cancelled || timedOut }
  }

  datatype Task =
    | Advance(run: nat)                         // about to lock `mu` and check the flags
    | Claim(run: nat)                           // holds `mu`, check passed
    | Invoke(run: nat, pos: nat)                // took `pos`, about to ask `should_execute`
    | ReadCancelled(run: nat)                   // will not advance; about to read `cancelled`
    | ReadTimedOut(run: nat)                    // about to read `timed_out`
    | Complete(run: nat, result: Result)        // about to compare-exchange `finished`
    | Unregister(run: nat, result: Result)      // won the exchange
    | Fire(run: nat, result: Result)            // about to call the completion callback
    | HandleTimeout(run: nat, completes: bool)  // about to call the timeout handler
    | SetCancelled(run: nat)                    // `cancel` about to set the flag of this run

  datatype Event =
    | Start(size: nat, sync: bool, globalTimeout: bool)
    | Do(task: Task, flag: bool)                // flag: time is up (Claim), body is eligible (Invoke)
    | Arm(run: nat, pos: nat)                   // a per-middleware timer is set for a started body
    | Next(run: nat, pos: nat)                  // a started body calls `next`
    | Report(run: nat, pos: nat, result: Result)// a started body calls its async callback
    | Throw(run: nat, pos: nat)                 // a started body throws
    | Refuse(run: nat, pos: nat, handled: bool) // `should_execute` throws; handled: the chain catches it
    | GlobalTimerFires(run: nat)
    | MiddlewareTimerFires(run: nat)
    | FinishSync(run: nat)                      // `execute` returns or rethrows
    | CancelAll
    | SetPaused(value: bool)
    | SetIoContext

  datatype System = System(
    runs: seq<Run>,
    active: seq<nat>,
    paused: bool,
    io: bool,
    tasks: multiset<Task>)

  function Initial(io: bool): System { System([], [], false, io, multiset{}) }

  // ---- Steps ----

  predicate Started(s: System, r: nat, pos: nat) { r < |s.runs| && pos in s.runs[r].ran }

  predicate Enabled(s: System, e: Event) {
    match e
    case Start(_, _, _) => true
    case Do(t, _) => t in s.tasks && t.run < |s.runs| && (t.Advance? ==> !s.runs[t.run].held)
    case Arm(r, pos) => Started(s, r, pos) && s.io && !s.runs[r].sync
    case Next(r, pos) => Started(s, r, pos)
    case Report(r, pos, _) => Started(s, r, pos) && !s.runs[r].sync
    case Throw(r, pos) => Started(s, r, pos)
    case Refuse(r, pos, _) => Invoke(r, pos) in s.tasks && r < |s.runs|
    case GlobalTimerFires(r) => r < |s.runs| && s.runs[r].globalTimer
    case MiddlewareTimerFires(r) => r < |s.runs| && s.runs[r].armed
    case FinishSync(r) => r < |s.runs| && s.runs[r].sync
    case CancelAll => true
    case SetPaused(_) => true
    case SetIoContext => true
  }

  /** A new run. An empty pipeline completes at once and is never registered. */
  function NewRun(size: nat, sync: bool, globalTimeout: bool, io: bool): Run {
    Run(size, sync, globalTimeout && (sync || !io), globalTimeout && !sync && io,
        0, false, false, size == 0, false, false, [], [], 0, if size == 0 then [Continue] else [], 0)
  }

  /** `std::remove_if` on the list of active runs. */
  function Without(active: seq<nat>, r: nat): seq<nat> {
    if active == [] then []
    else (if active[0] == r then [] else [active[0]]) + Without(active[1..], r)
  }

  function CancelTasks(active: seq<nat>): multiset<Task> {
    if active == [] then multiset{} else multiset{SetCancelled(active[0])} + CancelTasks(active[1..])
  }

  function WithRun(s: System, r: nat, run: Run): System
    requires r < |s.runs|
  {
    s.(runs := s.runs[r := run])
  }

  function AddTask(s: System, t: Task): System { s.(tasks := s.tasks + multiset{t}) }

  /** A timer handler: `timed_out.exchange(true)`, and the winner goes on to the timeout handler. */
  function TimerFires(s: System, r: nat, completes: bool): System
    requires r < |s.runs|
  {
    if s.runs[r].timedOut then s
    else AddTask(WithRun(s, r, s.runs[r].(timedOut := true)), HandleTimeout(r, completes))
  }

  function Apply(s: System, e: Event): System
    requires Enabled(s, e)
  {
    match e
    case Start(size, sync, global) =>
      var r := |s.runs|;
      var t := s.(runs := s.runs + [NewRun(size, sync, global, s.io)]);
      if size == 0 then t else AddTask(t.(active := s.active + [r]), Advance(r))
    case Do(t, flag) => Perform(s.(tasks := s.tasks - multiset{t}), t, flag)
    case Arm(r, _) => WithRun(s, r, s.runs[r].(armed := true))
    case Next(r, _) => AddTask(s, Advance(r))
    case Report(r, _, result) => if result == Continue then AddTask(s, Advance(r)) else AddTask(s, Complete(r, result))
    case Throw(r, _) => if s.runs[r].sync then s else AddTask(s, Complete(r, Error))
    case Refuse(r, pos, handled) =>
      var s' := s.(tasks := s.tasks - multiset{Invoke(r, pos)});
      if handled && !s.runs[r].sync then AddTask(s', Complete(r, Error)) else s'
    case GlobalTimerFires(r) => TimerFires(s, r, true)
    case MiddlewareTimerFires(r) => TimerFires(s, r, false)
    case FinishSync(r) => AddTask(s, Complete(r, Continue))
    case CancelAll => s.(tasks := s.tasks + CancelTasks(s.active))
    case SetPaused(v) => s.(paused := v)
    case SetIoContext => s.(io := true)
  }

  /** The step of a thread whose task `t` has been taken off the pending ones. */
  function Perform(s: System, t: Task, flag: bool): System
    requires t.run < |s.runs|
  {
    var r, run := t.run, s.runs[t.run];
    match t
    case Advance(_) =>
      if run.Stopping() || s.paused || run.index >= run.size
      then (if run.sync then s else AddTask(s, ReadCancelled(r)))
      else AddTask(WithRun(s, r, run.(held := true)), Claim(r))
    case Claim(_) =>
      if run.lazy && flag
      then AddTask(WithRun(s, r, run.(timedOut := true, held := false)), HandleTimeout(r, !run.sync))
      else AddTask(WithRun(s, r, run.(index := run.index + 1, held := false, claims := run.claims + [run.index],
                                      lateClaims := run.lateClaims + if run.Stopping() then 1 else 0)),
                   Invoke(r, run.index))
    case Invoke(_, pos) =>
      if flag then WithRun(s, r, run.(ran := run.ran + [pos])) else AddTask(s, Advance(r))
    case ReadCancelled(_) => AddTask(s, if run.cancelled then Complete(r, Stop) else ReadTimedOut(r))
    case ReadTimedOut(_) => AddTask(s, Complete(r, if run.timedOut then Timeout else Continue))
    case Complete(_, result) =>
      if run.finished then s else AddTask(WithRun(s, r, run.(finished := true)), Unregister(r, result))
    case Unregister(_, result) => AddTask(s.(active := Without(s.active, r)), Fire(r, result))
    case Fire(_, result) => WithRun(s, r, run.(completions := run.completions + [result]))
    case HandleTimeout(_, completes) =>
      var s' := WithRun(s, r, run.(timeouts := run.timeouts + 1));
      if completes then AddTask(s', Complete(r, Timeout)) else s'
    case SetCancelled(_) => WithRun(s, r, run.(cancelled := true))
  }

  // ---- Executions ----

  ghost predicate IsTrace(s: System, es: seq<Event>)
    decreases |es|
  {
    es == [] || (Enabled(s, es[0]) && IsTrace(Apply(s, es[0]), es[1..]))
  }

  ghost function After(s: System, es: seq<Event>): System
    requires IsTrace(s, es)
    decreases |es|
  {
    if es == [] then s else After(Apply(s, es[0]), es[1..])
  }

  // ---- The invariant ----

  /** Threads between winning the exchange and leaving the list of active runs. */
  function Leaving(tasks: multiset<Task>, r: nat): nat {
    tasks[Unregister(r, Continue)] + tasks[Unregister(r, Stop)] + tasks[Unregister(r, Error)] + tasks[Unregister(r, Timeout)]
  }

  /** Threads about to call the completion callback. */
  function Firing(tasks: multiset<Task>, r: nat): nat {
    tasks[Fire(r, Continue)] + tasks[Fire(r, Stop)] + tasks[Fire(r, Error)] + tasks[Fire(r, Timeout)]
  }

  /** Threads about to call the timeout handler. */
  function Timing(tasks: multiset<Task>, r: nat): nat {
    tasks[HandleTimeout(r, true)] + tasks[HandleTimeout(r, false)]
  }

  function One(b: bool): nat { if b then 1 else 0 }

  ghost predicate ClaimsOk(tasks: multiset<Task>, r: nat, run: Run) {
    && run.index == |run.claims| <= run.size
    && (run.held ==> run.index < run.size)
    && (forall k :: 0 <= k < |run.claims| ==> run.claims[k] == k)
    && (forall p: nat :: tasks[Invoke(r, p)] + multiset(run.ran)[p] <= One(p < run.index))
  }

  ghost predicate FinishOk(tasks: multiset<Task>, active: seq<nat>, r: nat, run: Run) {
    && Leaving(tasks, r) + Firing(tasks, r) + |run.completions| == One(run.finished)
    && multiset(active)[r] == One(!run.finished) + Leaving(tasks, r)
  }

  ghost predicate StopOk(tasks: multiset<Task>, r: nat, run: Run) {
    && tasks[Claim(r)] == One(run.held)
    && run.lateClaims + One(run.held && run.Stopping()) <= One(run.Stopping())
  }

  ghost predicate TimeoutOk(tasks: multiset<Task>, r: nat, run: Run) {
    var handled := run.timeouts + Timing(tasks, r);
    && (run.lazy ==> !run.globalTimer) && (run.sync ==> !run.armed && !run.globalTimer)
    && (!run.timedOut ==> handled == 0)
    && (run.held && run.timedOut ==> handled == 1)
    && handled <= 2 && (handled == 2 ==> run.size >= 2) && (run.armed ==> run.index > 0)
    && (!(run.lazy && run.armed) ==> handled == One(run.timedOut) && !(run.lazy && run.held && run.timedOut))
  }

  ghost predicate RunInv(s: System, r: nat)
    requires r < |s.runs|
  {
    && ClaimsOk(s.tasks, r, s.runs[r])
    && FinishOk(s.tasks, s.active, r, s.runs[r])
    && StopOk(s.tasks, r, s.runs[r])
    && TimeoutOk(s.tasks, r, s.runs[r])
  }

  ghost predicate Inv(s: System) {
    && (forall t :: t in s.tasks ==> t.run < |s.runs|)
    && (forall i :: 0 <= i < |s.active| ==> s.active[i] < |s.runs|)
    && (forall r: nat :: r < |s.runs| ==> RunInv(s, r))
  }

  /** Nothing that concerns run `q` differs. */
  ghost predicate SameFor(s: System, s': System, q: nat)
    requires q < |s.runs| && q < |s'.runs|
  {
    && s.runs[q] == s'.runs[q]
    && multiset(s.active)[q] == multiset(s'.active)[q]
    && forall t: Task :: t.run == q ==> s.tasks[t] == s'.tasks[t]
  }

  lemma {:induction false} Frame(s: System, s': System, q: nat)
    requires q < |s.runs| && q < |s'.runs| && RunInv(s, q) && SameFor(s, s', q)
    ensures RunInv(s', q)
  {
  }

  lemma {:induction false} WithoutCounts(active: seq<nat>, r: nat, q: nat)
    ensures multiset(Without(active, r))[q] == if q == r then 0 else multiset(active)[q]
    ensures forall i :: 0 <= i < |Without(active, r)| ==> Without(active, r)[i] in active
    decreases |active|
  {
    if active != [] {
      WithoutCounts(active[1..], r, q);
      assert active == [active[0]] + active[1..];
    }
  }

  lemma {:induction false} CancelTasksOnly(active: seq<nat>, t: Task)
    ensures t in CancelTasks(active) ==> t.SetCancelled? && t.run in active
    decreases |active|
  {
    if active != [] {
      CancelTasksOnly(active[1..], t);
    }
  }

  // ---- Counting pending tasks ----

  lemma {:induction false} CountAdd(tasks: multiset<Task>, u: Task)
    ensures var more, r := tasks + multiset{u}, u.run;
            && Leaving(more, r) == Leaving(tasks, r) + One(u.Unregister?)
            && Firing(more, r) == Firing(tasks, r) + One(u.Fire?)
            && Timing(more, r) == Timing(tasks, r) + One(u.HandleTimeout?)
            && more[Claim(r)] == tasks[Claim(r)] + One(u.Claim?)
            && forall p: nat :: more[Invoke(r, p)] == tasks[Invoke(r, p)] + One(u == Invoke(r, p))
  {
    match u {
      case Unregister(_, result) => match result { case Continue => case Stop => case Error => case Timeout => }
      case Fire(_, result) => match result { case Continue => case Stop => case Error => case Timeout => }
      case HandleTimeout(_, completes) => if completes { } else { }
      case _ =>
    }
  }

  lemma {:induction false} CountRemove(tasks: multiset<Task>, u: Task)
    requires u in tasks
    ensures var less, r := tasks - multiset{u}, u.run;
            && Leaving(tasks, r) == Leaving(less, r) + One(u.Unregister?)
            && Firing(tasks, r) == Firing(less, r) + One(u.Fire?)
            && Timing(tasks, r) == Timing(less, r) + One(u.HandleTimeout?)
            && tasks[Claim(r)] == less[Claim(r)] + One(u.Claim?)
            && forall p: nat :: tasks[Invoke(r, p)] == less[Invoke(r, p)] + One(u == Invoke(r, p))
  {
    CountAdd(tasks - multiset{u}, u);
    assert tasks - multiset{u} + multiset{u} == tasks;
  }

  // ---- Each kind of step keeps the invariant ----

  /** Assembles the invariant after a step that concerns run `r` only. */
  lemma {:induction false} StepOn(s: System, s': System, r: nat, removed: multiset<Task>, added: multiset<Task>)
    requires Inv(s) && r < |s.runs| == |s'.runs| && s'.active == s.active
    requires s'.runs == s.runs[r := s'.runs[r]]
    requires s'.tasks == s.tasks - removed + added
    requires forall t :: t in removed || t in added ==> t.run == r
    requires RunInv(s', r)
    ensures Inv(s')
  {
    forall q: nat | q < |s'.runs| ensures RunInv(s', q) {
      if q != r {
        assert SameFor(s, s', q);
        Frame(s, s', q);
      }
    }
  }

  /** Tasks that the invariant counts. */
  predicate Counted(t: Task) { t.Claim? || t.Invoke? || t.Unregister? || t.Fire? || t.HandleTimeout? }

  /** A step that changes neither runs nor counted tasks. */
  lemma {:induction false} QuietStep(s: System, s': System)
    requires Inv(s) && s'.runs == s.runs && s'.active == s.active
    requires forall t :: t in s'.tasks ==> t.run < |s.runs|
    requires forall t: Task :: Counted(t) ==> s'.tasks[t] == s.tasks[t]
    ensures Inv(s')
  {
    forall q: nat | q < |s.runs| ensures RunInv(s', q) {
      assert RunInv(s, q);
    }
  }

  lemma {:induction false} NewRunInv(s: System, r: nat, sync: bool, global: bool, io: bool)
    requires r < |s.runs| && s.runs[r] == NewRun(s.runs[r].size, sync, global, io)
    requires forall t: Task :: t.run == r && !t.Advance? ==> s.tasks[t] == 0
    requires multiset(s.active)[r] == One(s.runs[r].size > 0)
    ensures RunInv(s, r)
  {
  }

  lemma {:induction false} StartFrame(s: System, e: Event, q: nat)
    requires Inv(s) && e.Start? && q < |s.runs|
    ensures RunInv(Apply(s, e), q)
  {
    assert SameFor(s, Apply(s, e), q);
    Frame(s, Apply(s, e), q);
  }

  lemma {:induction false} StartedRun(s: System, e: Event)
    requires Inv(s) && e.Start?
    ensures RunInv(Apply(s, e), |s.runs|)
  {
    var s', r := Apply(s, e), |s.runs|;
    forall t: Task | t.run == r ensures s.tasks[t] == 0 { assert t !in s.tasks; }
    assert multiset(s.active)[r] == 0 by { assert r !in s.active; }
    NewRunInv(s', r, e.sync, e.globalTimeout, s.io);
  }

  lemma {:induction false} StartKeeps(s: System, e: Event)
    requires Inv(s) && e.Start?
    ensures Inv(Apply(s, e))
  {
    var s', r := Apply(s, e), |s.runs|;
    StartedRun(s, e);
    forall q: nat | q < r ensures RunInv(s', q) { StartFrame(s, e, q); }
    assert |s'.runs| == r + 1 && s'.active == s.active + if e.size == 0 then [] else [r];
  }

  lemma {:induction false} CancelKeeps(s: System)
    requires Inv(s)
    ensures Inv(Apply(s, CancelAll))
  {
    var s' := Apply(s, CancelAll);
    forall t: Task
      ensures !t.SetCancelled? ==> s'.tasks[t] == s.tasks[t]
      ensures t in s'.tasks ==> t.run < |s.runs|
    {
      CancelTasksOnly(s.active, t);
    }
    QuietStep(s, s');
  }

  lemma {:induction false} UnregisterRun(s: System, t: Task)
    requires Inv(s) && t in s.tasks && t.Unregister?
    ensures var s' := AddTask(s.(tasks := s.tasks - multiset{t}, active := Without(s.active, t.run)), Fire(t.run, t.result));
            RunInv(s', t.run)
  {
    CountRemove(s.tasks, t);
    CountAdd(s.tasks - multiset{t}, Fire(t.run, t.result));
    WithoutCounts(s.active, t.run, t.run);
    assert RunInv(s, t.run);
  }

  lemma {:induction false} UnregisterFrame(s: System, t: Task, q: nat)
    requires Inv(s) && t in s.tasks && t.Unregister? && q < |s.runs| && q != t.run
    ensures var s' := AddTask(s.(tasks := s.tasks - multiset{t}, active := Without(s.active, t.run)), Fire(t.run, t.result));
            RunInv(s', q)
  {
    var s' := AddTask(s.(tasks := s.tasks - multiset{t}, active := Without(s.active, t.run)), Fire(t.run, t.result));
    WithoutCounts(s.active, t.run, q);
    assert SameFor(s, s', q);
    Frame(s, s', q);
  }

  lemma {:induction false} UnregisterKeeps(s: System, t: Task, flag: bool)
    requires Inv(s) && Enabled(s, Do(t, flag)) && t.Unregister?
    ensures Inv(Apply(s, Do(t, flag)))
  {
    var s' := Apply(s, Do(t, flag));
    UnregisterRun(s, t);
    WithoutCounts(s.active, t.run, t.run);
    forall q: nat | q < |s.runs| && q != t.run ensures RunInv(s', q) { UnregisterFrame(s, t, q); }
  }

  lemma {:induction false} ClaimKeeps(s: System, t: Task, flag: bool)
    requires Inv(s) && Enabled(s, Do(t, flag)) && t.Claim?
    ensures Inv(Apply(s, Do(t, flag)))
  {
    if s.runs[t.run].lazy && flag { TimeIsUpKeeps(s, t, flag); } else { TakeKeeps(s, t, flag); }
  }

  lemma {:induction false} TimeIsUpKeeps(s: System, t: Task, flag: bool)
    requires Inv(s) && Enabled(s, Do(t, flag)) && t.Claim? && s.runs[t.run].lazy && flag
    ensures Inv(Apply(s, Do(t, flag)))
  {
    var s', r := Apply(s, Do(t, flag)), t.run;
    var u := HandleTimeout(r, !s.runs[r].sync);
    CountRemove(s.tasks, t);
    CountAdd(s.tasks - multiset{t}, u);
    assert RunInv(s, r);
    assert ClaimsOk(s'.tasks, r, s'.runs[r]);
    StepOn(s, s', r, multiset{t}, multiset{u});
  }

  lemma {:induction false} TakeKeeps(s: System, t: Task, flag: bool)
    requires Inv(s) && Enabled(s, Do(t, flag)) && t.Claim? && !(s.runs[t.run].lazy && flag)
    ensures Inv(Apply(s, Do(t, flag)))
  {
    var s', r := Apply(s, Do(t, flag)), t.run;
    TakenRun(s, t, flag);
    StepOn(s, s', r, multiset{t}, multiset{Invoke(r, s.runs[r].index)});
  }

  lemma {:induction false} TakenRun(s: System, t: Task, flag: bool)
    requires Inv(s) && Enabled(s, Do(t, flag)) && t.Claim? && !(s.runs[t.run].lazy && flag)
    ensures RunInv(Apply(s, Do(t, flag)), t.run)
  {
    var s', r := Apply(s, Do(t, flag)), t.run;
    CountRemove(s.tasks, t);
    CountAdd(s.tasks - multiset{t}, Invoke(r, s.runs[r].index));
    assert RunInv(s, r);
    assert ClaimsOk(s'.tasks, r, s'.runs[r]);
  }

  lemma {:induction false} InvokeKeeps(s: System, t: Task, flag: bool)
    requires Inv(s) && Enabled(s, Do(t, flag)) && t.Invoke?
    ensures Inv(Apply(s, Do(t, flag)))
  {
    var s', r := Apply(s, Do(t, flag)), t.run;
    CountRemove(s.tasks, t);
    CountAdd(s.tasks - multiset{t}, Advance(r));
    assert RunInv(s, r);
    assert ClaimsOk(s'.tasks, r, s'.runs[r]);
    StepOn(s, s', r, multiset{t}, if flag then multiset{} else multiset{Advance(r)});
  }

  /** A thread whose step changes no run and queues at most one uncounted task. */
  lemma {:induction false} DropThenQueue(s: System, t: Task, u: Task)
    requires Inv(s) && t in s.tasks && !Counted(t) && !Counted(u) && u.run < |s.runs|
    ensures Inv(s.(tasks := s.tasks - multiset{t}))
    ensures Inv(AddTask(s.(tasks := s.tasks - multiset{t}), u))
  {
    var s' := s.(tasks := s.tasks - multiset{t});
    QuietStep(s, s');
    QueueKeeps(s', u);
  }

  lemma {:induction false} AdvanceKeeps(s: System, t: Task, flag: bool)
    requires Inv(s) && Enabled(s, Do(t, flag)) && t.Advance?
    ensures Inv(Apply(s, Do(t, flag)))
  {
    var run := s.runs[t.run];
    if run.Stopping() || s.paused || run.index >= run.size {
      DropThenQueue(s, t, ReadCancelled(t.run));
    } else {
      PassKeeps(s, t, flag);
    }
  }

  lemma {:induction false} PassKeeps(s: System, t: Task, flag: bool)
    requires Inv(s) && Enabled(s, Do(t, flag)) && t.Advance?
    requires var run := s.runs[t.run]; !(run.Stopping() || s.paused || run.index >= run.size)
    ensures Inv(Apply(s, Do(t, flag)))
  {
    var s', r := Apply(s, Do(t, flag)), t.run;
    CountRemove(s.tasks, t);
    CountAdd(s.tasks - multiset{t}, Claim(r));
    assert RunInv(s, r);
    assert s'.runs[r] == s.runs[r].(held := true);
    assert ClaimsOk(s'.tasks, r, s'.runs[r]);
    assert FinishOk(s'.tasks, s'.active, r, s'.runs[r]);
    StepOn(s, s', r, multiset{t}, multiset{Claim(r)});
  }

  lemma {:induction false} CompleteKeeps(s: System, t: Task, flag: bool)
    requires Inv(s) && Enabled(s, Do(t, flag)) && t.Complete?
    ensures Inv(Apply(s, Do(t, flag)))
  {
    var s', r, u := Apply(s, Do(t, flag)), t.run, Unregister(t.run, t.result);
    if s.runs[r].finished {
      QuietStep(s, s');
    } else {
      CountRemove(s.tasks, t);
      CountAdd(s.tasks - multiset{t}, u);
      assert RunInv(s, r);
      assert ClaimsOk(s'.tasks, r, s'.runs[r]);
      StepOn(s, s', r, multiset{t}, multiset{u});
    }
  }

  lemma {:induction false} FireKeeps(s: System, t: Task, flag: bool)
    requires Inv(s) && Enabled(s, Do(t, flag)) && t.Fire?
    ensures Inv(Apply(s, Do(t, flag)))
  {
    var s', r := Apply(s, Do(t, flag)), t.run;
    CountRemove(s.tasks, t);
    assert RunInv(s, r);
    assert ClaimsOk(s'.tasks, r, s'.runs[r]);
    StepOn(s, s', r, multiset{t}, multiset{});
  }

  lemma {:induction false} HandledKeeps(s: System, t: Task)
    requires Inv(s) && t in s.tasks && t.HandleTimeout?
    ensures var run := s.runs[t.run];
            Inv(WithRun(s.(tasks := s.tasks - multiset{t}), t.run, run.(timeouts := run.timeouts + 1)))
  {
    var r := t.run;
    var s' := WithRun(s.(tasks := s.tasks - multiset{t}), r, s.runs[r].(timeouts := s.runs[r].timeouts + 1));
    CountRemove(s.tasks, t);
    assert RunInv(s, r);
    assert ClaimsOk(s'.tasks, r, s'.runs[r]);
    assert FinishOk(s'.tasks, s'.active, r, s'.runs[r]);
    StepOn(s, s', r, multiset{t}, multiset{});
  }

  lemma {:induction false} HandleTimeoutKeeps(s: System, t: Task, flag: bool)
    requires Inv(s) && Enabled(s, Do(t, flag)) && t.HandleTimeout?
    ensures Inv(Apply(s, Do(t, flag)))
  {
    var r := t.run;
    var s1 := WithRun(s.(tasks := s.tasks - multiset{t}), r, s.runs[r].(timeouts := s.runs[r].timeouts + 1));
    assert Apply(s, Do(t, flag)) == if t.completes then AddTask(s1, Complete(r, Timeout)) else s1;
    assert Inv(s1) by { HandledKeeps(s, t); }
    QueueKeeps(s1, Complete(r, Timeout));
  }

  lemma {:induction false} SetCancelledKeeps(s: System, t: Task, flag: bool)
    requires Inv(s) && Enabled(s, Do(t, flag)) && t.SetCancelled?
    ensures Inv(Apply(s, Do(t, flag)))
  {
    var s', r := Apply(s, Do(t, flag)), t.run;
    CountRemove(s.tasks, t);
    assert RunInv(s, r);
    assert ClaimsOk(s'.tasks, r, s'.runs[r]);
    StepOn(s, s', r, multiset{t}, multiset{});
  }

  lemma {:induction false} TaskKeeps(s: System, t: Task, flag: bool)
    requires Inv(s) && Enabled(s, Do(t, flag))
    ensures Inv(Apply(s, Do(t, flag)))
  {
    match t {
      case Advance(_) => AdvanceKeeps(s, t, flag);
      case Claim(_) => ClaimKeeps(s, t, flag);
      case Invoke(_, _) => InvokeKeeps(s, t, flag);
      case ReadCancelled(r) => DropThenQueue(s, t, if s.runs[r].cancelled then Complete(r, Stop) else ReadTimedOut(r));
      case ReadTimedOut(r) => DropThenQueue(s, t, Complete(r, if s.runs[r].timedOut then Timeout else Continue));
      case Complete(_, _) => CompleteKeeps(s, t, flag);
      case Unregister(_, _) => UnregisterKeeps(s, t, flag);
      case Fire(_, _) => FireKeeps(s, t, flag);
      case HandleTimeout(_, _) => HandleTimeoutKeeps(s, t, flag);
      case SetCancelled(_) => SetCancelledKeeps(s, t, flag);
    }
  }

  lemma {:induction false} TimerKeeps(s: System, r: nat, completes: bool)
    requires Inv(s) && r < |s.runs| && (if completes then s.runs[r].globalTimer else s.runs[r].armed)
    ensures Inv(TimerFires(s, r, completes))
  {
    var s', u := TimerFires(s, r, completes), HandleTimeout(r, completes);
    if !s.runs[r].timedOut {
      CountAdd(s.tasks, u);
      assert RunInv(s, r);
      assert ClaimsOk(s'.tasks, r, s'.runs[r]);
      assert FinishOk(s'.tasks, s'.active, r, s'.runs[r]);
      assert s.tasks - multiset{} == s.tasks;
      StepOn(s, s', r, multiset{}, multiset{u});
    }
  }

  lemma {:induction false} ArmKeeps(s: System, e: Event)
    requires Inv(s) && Enabled(s, e) && e.Arm?
    ensures Inv(Apply(s, e))
  {
    var s' := Apply(s, e);
    assert RunInv(s, e.run);
    assert ClaimsOk(s'.tasks, e.run, s'.runs[e.run]);
    assert FinishOk(s'.tasks, s'.active, e.run, s'.runs[e.run]);
    StepOn(s, s', e.run, multiset{}, multiset{});
  }

  /** A position that was taken and whose body never starts. */
  lemma {:induction false} RefuseKeeps(s: System, e: Event)
    requires Inv(s) && Enabled(s, e) && e.Refuse?
    ensures Inv(Apply(s, e))
  {
    var s' := s.(tasks := s.tasks - multiset{Invoke(e.run, e.pos)});
    DropInvoke(s, Invoke(e.run, e.pos));
    if e.handled && !s.runs[e.run].sync { QueueKeeps(s', Complete(e.run, Error)); }
  }

  lemma {:induction false} DropInvoke(s: System, t: Task)
    requires Inv(s) && t in s.tasks && t.Invoke?
    ensures Inv(s.(tasks := s.tasks - multiset{t}))
  {
    var r, s' := t.run, s.(tasks := s.tasks - multiset{t});
    CountRemove(s.tasks, t);
    assert RunInv(s, r);
    assert ClaimsOk(s'.tasks, r, s'.runs[r]);
    assert s'.tasks == s.tasks - multiset{t} + multiset{};
    StepOn(s, s', r, multiset{t}, multiset{});
  }

  /** A step that only queues a thread the invariant does not count. */
  lemma {:induction false} QueueKeeps(s: System, t: Task)
    requires Inv(s) && t.run < |s.runs| && !Counted(t)
    ensures Inv(AddTask(s, t))
  {
    QuietStep(s, AddTask(s, t));
  }

  /** Every atomic step, of every thread, keeps the invariant. */
  lemma {:induction false} StepKeeps(s: System, e: Event)
    requires Inv(s) && Enabled(s, e)
    ensures Inv(Apply(s, e))
  {
    match e {
      case Start(_, _, _) => StartKeeps(s, e);
      case Do(t, flag) => TaskKeeps(s, t, flag);
      case Arm(_, _) => ArmKeeps(s, e);
      case GlobalTimerFires(r) => TimerKeeps(s, r, true);
      case MiddlewareTimerFires(r) => TimerKeeps(s, r, false);
      case CancelAll => CancelKeeps(s);
      case Next(r, _) => QueueKeeps(s, Advance(r));
      case Report(r, _, result) => QueueKeeps(s, if result == Continue then Advance(r) else Complete(r, result));
      case Throw(r, _) => QueueKeeps(s, Complete(r, Error));
      case Refuse(_, _, _) => RefuseKeeps(s, e);
      case FinishSync(r) => QueueKeeps(s, Complete(r, Continue));
      case SetPaused(_) => QuietStep(s, Apply(s, e));
      case SetIoContext => QuietStep(s, Apply(s, e));
    }
  }

  lemma {:induction false} TraceKeeps(s: System, es: seq<Event>)
    requires Inv(s) && IsTrace(s, es)
    ensures Inv(After(s, es))
    decreases |es|
  {
    if es != [] {
      StepKeeps(s, es[0]);
      TraceKeeps(Apply(s, es[0]), es[1..]);
    }
  }
}

/**
  The dequeue loop and the bounded drain of the scrape worker (backend/app/worker.py) as a
  transition system.  Between two awaits only the loop moves; at an await tasks end, done
  callbacks run and a signal may arrive, in any order.
*/
module Worker {
  import opened FiniteSets

  /** The number of concurrent jobs and the length of the drain's grace period. */
  datatype Config = Config(slots: int, grace: int)

  datatype Status = Running | CancelRequested | Finished | Cancelled

  predicate Done(s: Status) {
    s.Finished? || s.Cancelled?
  }

  /** Where `run` and then `_drain` stand. */
  datatype Pc =
    | Test                              // about to test the shutdown flag
    | Sleeping                          // all slots taken
    | Dequeuing
    | BackingOff                        // the queue raised
    | Handed(job: string)               // a job id was dequeued
    | Waiting(snapshot: set<nat>)       // the grace period over a copy of `_tasks`
    | Gathering(pending: set<nat>)      // what was left is cancelled and awaited
    | Stopped

  /**
    Task `i` runs job `started[i]` and has `status[i]`; `tasks` is `_tasks`.  `dequeued` lists
    the ids taken from the queue and `late` counts the tasks started after the shutdown flag.
    `now` is the clock and `since` the instant at which the grace period began.
  */
  datatype State = State(pc: Pc, shutdown: bool, dequeued: seq<string>, started: seq<string>,
                         status: seq<Status>, tasks: set<nat>, late: nat, now: int, since: int)

  const START := State(Test, false, [], [], [], {}, 0, 0, 0)

  // ------------------------------------------------------------------- loop steps

  predicate Full(s: State, cfg: Config) {
    |s.tasks| >= cfg.slots
  }

  /** `_drain` returns at once without tasks, else it waits for a copy of the set. */
  function Drained(s: State): State {
    if s.tasks == {} then s.(pc := Stopped) else s.(pc := Waiting(s.tasks), since := s.now)
  }

  ghost predicate LoopTest(s: State, s': State, cfg: Config) {
    && s.pc.Test?
    && s' == if s.shutdown then Drained(s) else s.(pc := if Full(s, cfg) then Sleeping else Dequeuing)
  }

  /** A sleep ends, a dequeue times out empty, or it raises and the loop backs off. */
  ghost predicate LoopResumes(s: State, s': State) {
    || (s.pc.Sleeping? && s' == s.(pc := Test))
    || (s.pc.BackingOff? && s' == s.(pc := Test))
    || (s.pc.Dequeuing? && s' == s.(pc := Test))
    || (s.pc.Dequeuing? && s' == s.(pc := BackingOff))
  }

  ghost predicate Dequeue(s: State, s': State) {
    s.pc.Dequeuing? && exists job :: s' == s.(pc := Handed(job), dequeued := s.dequeued + [job])
  }

  ghost predicate StartTask(s: State, s': State) {
    && s.pc.Handed?
    && s' == s.(pc := Test, started := s.started + [s.pc.job], status := s.status + [Running],
                tasks := s.tasks + {|s.started|}, late := s.late + if s.shutdown then 1 else 0)
  }

  /** The loop is cancelled at an await and goes straight to `finally`. */
  ghost predicate Abort(s: State, s': State) {
    (s.pc.Sleeping? || s.pc.Dequeuing? || s.pc.BackingOff?) && s' == Drained(s)
  }

  // ------------------------------------------------------------------ drain steps

  ghost function Pending(s: State, snapshot: set<nat>): set<nat> {
    set i | i in snapshot && i < |s.status| && !Done(s.status[i])
  }

  /** The grace period is over, or all tasks of the copy are done: the rest is cancelled. */
  ghost predicate GraceEnds(s: State, s': State, cfg: Config) {
    && s.pc.Waiting?
    && var pending := Pending(s, s.pc.snapshot);
       && (pending == {} || s.now >= s.since + cfg.grace)
       && s' == s.(pc := if pending == {} then Stopped else Gathering(pending),
                status := seq(|s.status|, i requires 0 <= i < |s.status| =>
                              if i in pending then CancelRequested else s.status[i]))
  }

  ghost predicate GatherEnds(s: State, s': State) {
    s.pc.Gathering? && Pending(s, s.pc.pending) == {} && s' == s.(pc := Stopped)
  }

  // ------------------------------------------------------------ environment steps

  ghost predicate EndsAs(s: State, s': State, i: nat, how: Status) {
    && i < |s.status| && !Done(s.status[i])
    && (how.Finished? || (how.Cancelled? && s.status[i].CancelRequested?))
    && s' == s.(status := s.status[i := how])
  }

  /** A task ends; only a task that was asked to may end as cancelled. */
  ghost predicate TaskEnds(s: State, s': State) {
    exists i: nat, how: Status :: EndsAs(s, s', i, how)
  }

  ghost predicate DoneCallback(s: State, s': State) {
    exists i: nat :: i < |s.status| && Done(s.status[i]) && s' == s.(tasks := s.tasks - {i})
  }

  ghost predicate Signal(s: State, s': State) {
    s' == s.(shutdown := true)
  }

  ghost predicate TimePasses(s: State, s': State) {
    s.now <= s'.now && s' == s.(now := s'.now)
  }

  ghost predicate LoopStep(s: State, s': State, cfg: Config) {
    LoopTest(s, s', cfg) || LoopResumes(s, s') || Dequeue(s, s') || StartTask(s, s') || Abort(s, s')
  }

  ghost predicate Step(s: State, s': State, cfg: Config) {
    || LoopStep(s, s', cfg) || GraceEnds(s, s', cfg) || GatherEnds(s, s')
    || TaskEnds(s, s') || DoneCallback(s, s') || Signal(s, s') || TimePasses(s, s')
  }

  ghost predicate Run(run: seq<State>, cfg: Config) {
    run != [] && run[0] == START && forall i :: 0 <= i < |run| - 1 ==> Step(run[i], run[i + 1], cfg)
  }

  predicate Draining(s: State) {
    s.pc.Waiting? || s.pc.Gathering? || s.pc.Stopped?
  }

  // ------------------------------------------------------------------- invariants

  ghost function InFlight(s: State): set<nat> {
    set i: nat | i < |s.status| && !Done(s.status[i])
  }

  /** The task set never exceeds the slots, and has room whenever a job may arrive. */
  ghost predicate Bounded(s: State, cfg: Config) {
    && (s.tasks != {} ==> |s.tasks| <= cfg.slots)
    && (s.pc.Dequeuing? || s.pc.Handed? ==> |s.tasks| < cfg.slots)
  }

  /** Every unfinished task is held by the set, and by what the drain waits for. */
  ghost predicate Held(s: State) {
    && |s.status| == |s.started| && (forall i :: i in s.tasks ==> i < |s.status|)
    && InFlight(s) <= s.tasks
    && (s.pc.Waiting? ==> InFlight(s) <= s.pc.snapshot)
    && (s.pc.Gathering? ==> InFlight(s) <= s.pc.pending)
    && (s.pc.Stopped? ==> InFlight(s) == {})
  }

  /** Each dequeued id has become exactly one task, except the one just handed over. */
  ghost predicate Conserved(s: State) {
    s.dequeued == s.started + if s.pc.Handed? then [s.pc.job] else []
  }

  /** A task is cancelled only once the drain has waited for the whole grace period. */
  ghost predicate CancelsLate(s: State, cfg: Config) {
    || ((s.pc.Gathering? || s.pc.Stopped?) && s.now >= s.since + cfg.grace)
    || forall i :: 0 <= i < |s.status| ==> s.status[i].Running? || s.status[i].Finished?
  }

  ghost predicate Latecomers(s: State) {
    || s.late == 0
    || (s.late == 1 && s.shutdown && !(s.pc.Sleeping? || s.pc.Dequeuing? || s.pc.BackingOff? || s.pc.Handed?))
  }

  ghost predicate Inv(s: State, cfg: Config) {
    Bounded(s, cfg) && Held(s) && Conserved(s) && CancelsLate(s, cfg) && Latecomers(s)
  }

  lemma DrainKeepsInv(s: State, cfg: Config)
    requires Inv(s, cfg) && !Draining(s) && !s.pc.Handed?
    ensures Inv(Drained(s), cfg)
  {
  }

  lemma StartTaskKeepsInv(s: State, s': State, cfg: Config)
    requires Inv(s, cfg) && StartTask(s, s')
    ensures Inv(s', cfg)
  {
  }

  lemma LoopStepKeepsInv(s: State, s': State, cfg: Config)
    requires Inv(s, cfg) && LoopStep(s, s', cfg)
    ensures Inv(s', cfg)
  {
    if StartTask(s, s') {
      StartTaskKeepsInv(s, s', cfg);
    } else if s' == Drained(s) {
      DrainKeepsInv(s, cfg);
    } else {
      assert InFlight(s') == InFlight(s);
    }
  }

  lemma GraceEndsKeepsInv(s: State, s': State, cfg: Config)
    requires Inv(s, cfg) && GraceEnds(s, s', cfg)
    ensures Inv(s', cfg)
  {
  }

  lemma TaskEndsKeepsInv(s: State, s': State, cfg: Config)
    requires Inv(s, cfg) && TaskEnds(s, s')
    ensures Inv(s', cfg)
  {
  }

  lemma DoneCallbackKeepsInv(s: State, s': State, cfg: Config)
    requires Inv(s, cfg) && DoneCallback(s, s')
    ensures Inv(s', cfg)
  {
  }

  lemma StepKeepsInv(s: State, s': State, cfg: Config)
    requires Inv(s, cfg) && Step(s, s', cfg)
    ensures Inv(s', cfg)
  {
    if LoopStep(s, s', cfg) {
      LoopStepKeepsInv(s, s', cfg);
    } else if GraceEnds(s, s', cfg) {
      GraceEndsKeepsInv(s, s', cfg);
    } else if TaskEnds(s, s') {
      TaskEndsKeepsInv(s, s', cfg);
    } else if DoneCallback(s, s') {
      DoneCallbackKeepsInv(s, s', cfg);
    } else if GatherEnds(s, s') {
      assert InFlight(s') <= Pending(s, s.pc.pending);
    } else {
      assert InFlight(s') == InFlight(s);
    }
  }

  lemma {:induction false} RunKeepsInv(run: seq<State>, i: nat, cfg: Config)
    requires Run(run, cfg) && i < |run|
    ensures Inv(run[i], cfg)
    decreases i
  {
    if i == 0 {
      assert InFlight(START) == {};
    } else {
      RunKeepsInv(run, i - 1, cfg);
      StepKeepsInv(run[i - 1], run[i], cfg);
    }
  }

  /** In every run at most `slots` tasks are in flight, and at most one starts after the signal. */
  lemma ConcurrencyBound(run: seq<State>, i: nat, cfg: Config)
    requires Run(run, cfg) && i < |run|
    ensures InFlight(run[i]) != {} ==> |InFlight(run[i])| <= cfg.slots
    ensures run[i].late <= 1
  {
    RunKeepsInv(run, i, cfg);
    SubsetSize(InFlight(run[i]), run[i].tasks);
  }

  /** When the worker has stopped, every dequeued job ran as one task that has ended. */
  lemma StoppedMeansDrained(run: seq<State>, i: nat, cfg: Config)
    requires Run(run, cfg) && i < |run| && run[i].pc.Stopped?
    ensures run[i].started == run[i].dequeued && |run[i].status| == |run[i].dequeued|
    ensures forall t :: 0 <= t < |run[i].status| ==> Done(run[i].status[t])
  {
    RunKeepsInv(run, i, cfg);
    var s := run[i];
    forall t: nat | t < |s.status| ensures Done(s.status[t]) {
      assert t !in InFlight(s);
    }
  }

  lemma {:induction false} WaitingBegan(run: seq<State>, i: nat, cfg: Config) returns (j: nat)
    requires Run(run, cfg) && i < |run| && run[i].pc.Waiting?
    ensures 0 < j <= i && run[j].pc == run[i].pc && !Draining(run[j - 1])
    ensures run[j].now == run[j].since == run[i].since <= run[i].now
    decreases i
  {
    if run[i - 1].pc.Waiting? {
      j := WaitingBegan(run, i - 1, cfg);
    } else {
      j := i;
    }
  }

  ghost predicate Cancelling(s: State, t: nat) {
    t < |s.status| && (s.status[t].CancelRequested? || s.status[t].Cancelled?)
  }

  /**
    A task that was asked to stop, or ended as cancelled, was waited for since the drain began
    at state `j`, and the grace period has passed since then.
  */
  lemma {:induction false} NoCancelBeforeGraceEnds(run: seq<State>, i: nat, t: nat, cfg: Config) returns (j: nat)
    requires Run(run, cfg) && i < |run| && Cancelling(run[i], t)
    ensures 0 < j < i && !Draining(run[j - 1]) && run[j].pc.Waiting? && t in run[j].pc.snapshot
    ensures run[i].now >= run[j].now + cfg.grace
    decreases i
  {
    hide Step;
    ClockNeverGoesBack(run[i - 1], run[i], cfg);
    if Cancelling(run[i - 1], t) {
      j := NoCancelBeforeGraceEnds(run, i - 1, t, cfg);
    } else {
      CancellingStartsAtGrace(run[i - 1], run[i], t, cfg);
      j := WaitingBegan(run, i - 1, cfg);
    }
  }

  lemma ClockNeverGoesBack(s: State, s': State, cfg: Config)
    requires Step(s, s', cfg)
    ensures s.now <= s'.now
  {
  }

  lemma CancellingStartsAtGrace(s: State, s': State, t: nat, cfg: Config)
    requires Step(s, s', cfg) && !Cancelling(s, t) && Cancelling(s', t)
    ensures s.pc.Waiting? && t in s.pc.snapshot && s'.now == s.now >= s.since + cfg.grace
  {
  }

  /** A task that has ended is never touched again: the drain cancels only what is unfinished. */
  lemma {:induction false} EndedTasksAreFinal(run: seq<State>, i: nat, j: nat, t: nat, cfg: Config)
    requires Run(run, cfg) && i <= j < |run|
    requires t < |run[i].status| && Done(run[i].status[t])
    ensures t < |run[j].status| && run[j].status[t] == run[i].status[t]
    decreases j
  {
    if i < j {
      EndedTasksAreFinal(run, i, j - 1, t, cfg);
    }
  }

  // --------------------------------------------------------------------- progress

  /** How many steps of its own the loop is away from draining, once the flag is set. */
  function StepsToDrain(s: State): nat {
    match s.pc
    case Dequeuing => 3
    case Handed(_) => 2
    case Sleeping => 2
    case BackingOff => 2
    case Test => 1
    case _ => 0
  }

  /** After the signal each step of the loop comes closer to the drain, whatever else happens. */
  lemma ShutdownIsPrompt(s: State, s': State, cfg: Config)
    requires s.shutdown && Step(s, s', cfg)
    ensures s'.shutdown && StepsToDrain(s') <= StepsToDrain(s)
    ensures LoopStep(s, s', cfg) ==> StepsToDrain(s') < StepsToDrain(s)
    ensures StepsToDrain(s') == 0 <==> Draining(s')
  {
  }

  /** A step of the main loop, as seen from outside: its place changes and it was not draining. */
  function LoopMoved(s: State, s': State): nat {
    if s.pc != s'.pc && !Draining(s) then 1 else 0
  }

  lemma LoopMovesTowardsDrain(s: State, s': State, cfg: Config)
    requires s.shutdown && Step(s, s', cfg)
    ensures s'.shutdown && LoopMoved(s, s') + StepsToDrain(s') <= StepsToDrain(s)
  {
    ShutdownIsPrompt(s, s', cfg);
  }

  /** How many steps between states `a` and `b` of a run the main loop made. */
  function LoopSteps(run: seq<State>, a: nat, b: nat): nat
    requires a <= b < |run|
  {
    if a == b then 0 else LoopSteps(run, a, b - 1) + LoopMoved(run[b - 1], run[b])
  }

  /** However a run goes on after the signal, at most three of its steps belong to the main loop. */
  lemma {:induction false} LoopEndsAfterSignal(run: seq<State>, a: nat, b: nat, cfg: Config)
    requires Run(run, cfg) && a <= b < |run| && run[a].shutdown
    ensures run[b].shutdown && LoopSteps(run, a, b) + StepsToDrain(run[b]) <= StepsToDrain(run[a]) <= 3
    decreases b
  {
    hide Step;
    if a < b {
      LoopEndsAfterSignal(run, a, b - 1, cfg);
      LoopMovesTowardsDrain(run[b - 1], run[b], cfg);
    }
  }

  // ----------------------------------------------------------- what the worker gets done

  /** Without the flag, the loop asks the queue for a job exactly if a slot is free, else it sleeps. */
  lemma TestAsksForAJobIff(s: State, s': State, cfg: Config)
    requires s.pc.Test? && !s.shutdown && LoopStep(s, s', cfg)
    ensures s'.pc == if |s.tasks| < cfg.slots then Dequeuing else Sleeping
    ensures s' == s.(pc := s'.pc)
  {
  }

  /** When the grace period ends, exactly the unfinished tasks that were waited for are asked to stop. */
  lemma GraceEndStopsTheRest(s: State, s': State, t: nat, cfg: Config)
    requires s.pc.Waiting? && !s'.pc.Waiting? && Step(s, s', cfg) && t < |s.status|
    ensures |s'.status| == |s.status|
    ensures s'.status[t] == if t in s.pc.snapshot && !Done(s.status[t]) then CancelRequested else s.status[t]
  {
  }

  function Last(run: seq<State>): State
    requires run != []
  {
    run[|run| - 1]
  }

  lemma Extends(run: seq<State>, s': State, cfg: Config)
    requires Run(run, cfg) && Step(Last(run), s', cfg)
    ensures Run(run + [s'], cfg) && Last(run + [s']) == s'
  {
  }

  /** A tested loop with a free slot takes the next job and starts its task. */
  lemma TakesAJob(run: seq<State>, job: string, cfg: Config) returns (longer: seq<State>)
    requires Run(run, cfg) && Last(run).pc.Test? && !Last(run).shutdown && |Last(run).tasks| < cfg.slots
    ensures Run(longer, cfg)
    ensures var s := Last(run); Last(longer) == s.(
      dequeued := s.dequeued + [job], started := s.started + [job], status := s.status + [Running],
      tasks := s.tasks + {|s.started|})
  {
    var s0 := Last(run);
    var s1 := s0.(pc := Dequeuing);
    assert LoopTest(s0, s1, cfg);
    Extends(run, s1, cfg);
    var s2 := s1.(pc := Handed(job), dequeued := s1.dequeued + [job]);
    assert Dequeue(s1, s2);
    Extends(run + [s1], s2, cfg);
    var s3 := s2.(pc := Test, started := s2.started + [job], status := s2.status + [Running],
                  tasks := s2.tasks + {|s2.started|});
    assert StartTask(s2, s3);
    Extends(run + [s1] + [s2], s3, cfg);
    longer := run + [s1] + [s2] + [s3];
  }

  /** Its task finishes, and the callback takes it out of the set. */
  lemma FinishesTask(run: seq<State>, t: nat, cfg: Config) returns (longer: seq<State>)
    requires Run(run, cfg) && t < |Last(run).status| && !Done(Last(run).status[t])
    ensures Run(longer, cfg)
    ensures var s := Last(run); Last(longer) == s.(status := s.status[t := Finished], tasks := s.tasks - {t})
  {
    var s0 := Last(run);
    var s1 := s0.(status := s0.status[t := Finished]);
    assert EndsAs(s0, s1, t, Finished);
    Extends(run, s1, cfg);
    var s2 := s1.(tasks := s1.tasks - {t});
    assert DoneCallback(s1, s2);
    Extends(run + [s1], s2, cfg);
    longer := run + [s1] + [s2];
  }

  /** With one slot or more, any list of jobs can be worked off, in order. */
  lemma {:induction false} EveryJobCanRun(jobs: seq<string>, cfg: Config) returns (run: seq<State>)
    requires cfg.slots >= 1
    ensures Run(run, cfg) && Last(run).pc.Test? && !Last(run).shutdown
    ensures Last(run).dequeued == Last(run).started == jobs && Last(run).tasks == {}
    ensures |Last(run).status| == |jobs| && forall t :: 0 <= t < |jobs| ==> Last(run).status[t] == Finished
    decreases |jobs|
  {
    hide Step;
    if jobs == [] {
      run := [START];
    } else {
      var before, job := jobs[..|jobs| - 1], jobs[|jobs| - 1];
      run := EveryJobCanRun(before, cfg);
      var taken := TakesAJob(run, job, cfg);
      assert jobs == before + [job];
      run := FinishesTask(taken, |before|, cfg);
    }
  }

  ghost predicate AllRunning(s: State, jobs: seq<string>) {
    && s.started == jobs && s.status == seq(|jobs|, _ => Running)
    && InFlight(s) == s.tasks && |s.tasks| == |jobs|
  }

  lemma OneMoreRunning(s: State, s': State, jobs: seq<string>, job: string)
    requires AllRunning(s, jobs)
    requires s'.started == s.started + [job] && s'.status == s.status + [Running]
    requires s'.tasks == s.tasks + {|s.started|}
    ensures AllRunning(s', jobs + [job])
  {
    assert |jobs| !in InFlight(s);
    assert InFlight(s') == InFlight(s) + {|jobs|};
  }

  /** The slot bound is attained: some run has as many unfinished tasks as there are slots. */
  lemma {:induction false} SlotsCanBeFull(jobs: seq<string>, cfg: Config) returns (run: seq<State>)
    requires |jobs| <= cfg.slots
    ensures Run(run, cfg) && Last(run).pc.Test? && !Last(run).shutdown && AllRunning(Last(run), jobs)
    decreases |jobs|
  {
    hide Step;
    if jobs == [] {
      run := [START];
    } else {
      var before, job := jobs[..|jobs| - 1], jobs[|jobs| - 1];
      var shorter := SlotsCanBeFull(before, cfg);
      run := TakesAJob(shorter, job, cfg);
      OneMoreRunning(Last(shorter), Last(run), before, job);
      assert jobs == before + [job];
    }
  }

  // ------------------------------------------------------------ the worker can always stop

  lemma StepTowardsDrain(s: State, cfg: Config) returns (s': State)
    requires s.shutdown && !Draining(s)
    ensures LoopStep(s, s', cfg) && s'.shutdown && StepsToDrain(s') < StepsToDrain(s)
  {
    match s.pc {
      case Test => s' := Drained(s);
      case Handed(job) =>
        s' := s.(pc := Test, started := s.started + [job], status := s.status + [Running],
                 tasks := s.tasks + {|s.started|}, late := s.late + 1);
      case _ => s' := s.(pc := Test);
    }
  }

  lemma {:induction false} ReachesDrain(run: seq<State>, cfg: Config) returns (longer: seq<State>)
    requires Run(run, cfg) && Last(run).shutdown
    ensures Run(longer, cfg) && Draining(Last(longer)) && run <= longer
    decreases StepsToDrain(Last(run))
  {
    if Draining(Last(run)) {
      longer := run;
    } else {
      var s' := StepTowardsDrain(Last(run), cfg);
      Extends(run, s', cfg);
      longer := ReachesDrain(run + [s'], cfg);
    }
  }

  /** Every task that is awaited can end, and then the worker has stopped. */
  lemma {:induction false} GatherCanEnd(run: seq<State>, cfg: Config) returns (longer: seq<State>)
    requires Run(run, cfg) && Last(run).pc.Gathering?
    ensures Run(longer, cfg) && Last(longer).pc.Stopped? && run <= longer
    decreases Pending(Last(run), Last(run).pc.pending)
  {
    var s := Last(run);
    var pending := Pending(s, s.pc.pending);
    if pending == {} {
      var s' := s.(pc := Stopped);
      assert GatherEnds(s, s');
      Extends(run, s', cfg);
      longer := run + [s'];
    } else {
      var t :| t in pending;
      var s' := s.(status := s.status[t := Finished]);
      assert EndsAs(s, s', t, Finished);
      Extends(run, s', cfg);
      assert Pending(s', s.pc.pending) == pending - {t};
      longer := GatherCanEnd(run + [s'], cfg);
    }
  }

  lemma WaitCanEnd(run: seq<State>, cfg: Config) returns (longer: seq<State>)
    requires Run(run, cfg) && Last(run).pc.Waiting?
    ensures Run(longer, cfg) && Last(longer).pc.Stopped? && run <= longer
  {
    var s := Last(run);
    var s1 := s.(now := if s.now >= s.since + cfg.grace then s.now else s.since + cfg.grace);
    assert TimePasses(s, s1);
    Extends(run, s1, cfg);
    var pending := Pending(s1, s1.pc.snapshot);
    var s2 := s1.(pc := if pending == {} then Stopped else Gathering(pending),
                  status := seq(|s1.status|, i requires 0 <= i < |s1.status| =>
                                if i in pending then CancelRequested else s1.status[i]));
    assert GraceEnds(s1, s2, cfg);
    Extends(run + [s1], s2, cfg);
    longer := run + [s1] + [s2];
    if pending != {} {
      longer := GatherCanEnd(longer, cfg);
    }
  }

  /** From every reachable state a signal can still lead to a stopped worker: nothing is stuck. */
  lemma WorkerCanStop(run: seq<State>, cfg: Config) returns (longer: seq<State>)
    requires Run(run, cfg)
    ensures Run(longer, cfg) && Last(longer).pc.Stopped? && run <= longer
  {
    var s' := Last(run).(shutdown := true);
    assert Signal(Last(run), s');
    Extends(run, s', cfg);
    longer := ReachesDrain(run + [s'], cfg);
    if Last(longer).pc.Waiting? {
      longer := WaitCanEnd(longer, cfg);
    } else if Last(longer).pc.Gathering? {
      longer := GatherCanEnd(longer, cfg);
    }
  }
}

/**
 The transfer thread: one controller calling `start`, `stop`, `suspend` and `resume`, and the worker that runs the
 data producer. Each action below is one atomic access or one critical section of the source; the two condition
 variables are modelled with their sleepers, notifications and spurious wakeups.
 */
module TransferThread {
  datatype Worker =
    | NoThread            // not joinable
    | StartedCallbacks
    | LoopTest            // while (!stop_)
    | ClearSuspend        // suspend_ = false, under suspend_mutex_
    | SetRunning          // running_ = true, under running_mutex_
    | InRun               // inside run_impl
    | CheckSuspend        // if (!suspend_) break
    | ClearRunning        // running_ = false, under running_mutex_
    | NotifyRunning       // running_cond_.notify_all()
    | ParkTest            // predicate of suspend_cond_.wait, under suspend_mutex_
    | Parked              // asleep on suspend_cond_
    | ErrorCallbacks
    | SetStop             // stop_ = true in notify_stop, under both mutexes
    | NotifySuspendCond   // suspend_cond_.notify_all() in notify_stop
    | NotifyRunningCond   // running_cond_.notify_all() in notify_stop
    | StoppedCallbacks
    | Finished

  datatype Controller =
    | Idle
    | SuspendSet          // suspend_ = true, under suspend_mutex_
    | SuspendTest         // predicate of running_cond_.wait, under running_mutex_
    | SuspendAsleep       // asleep on running_cond_
    | ResumeClear         // suspend_ = false, under suspend_mutex_
    | ResumeNotify        // suspend_cond_.notify_all()
    | StopProducer        // stop_impl
    | StopSet             // stop_ = true in notify_stop
    | StopNotifySuspend   // suspend_cond_.notify_all() in notify_stop
    | StopNotifyRunning   // running_cond_.notify_all() in notify_stop
    | StopJoin
    | StartJoin
    | StartReset          // stop_ = running_ = false, under both mutexes
    | StartProducer       // start_impl
    | StartSpawn

  datatype State = State(worker: Worker, controller: Controller, stop: bool, suspend: bool, running: bool,
                         startedCount: nat, stoppedCount: nat)

  const INIT: State := State(NoThread, Idle, false, false, false, 0, 0)

  datatype Action =
    | WorkerStep          // the worker's next action, when it is not inside run_impl or asleep
    | RunReturns          // run_impl returns: asked to, or at the end of the data
    | RunThrows
    | WorkerWakes         // a spurious wakeup
    | CallStart
    | CallStop
    | CallSuspend
    | CallResume
    | ControllerStep      // the controller's next action inside a call
    | ControllerWakes     // a spurious wakeup

  /** `notify_all` on `suspend_cond_`. */
  function WakeWorker(s: State): State {
    if s.worker.Parked? then s.(worker := ParkTest) else s
  }

  /** `notify_all` on `running_cond_`. */
  function WakeController(s: State): State {
    if s.controller.SuspendAsleep? then s.(controller := SuspendTest) else s
  }

  predicate Enabled(s: State, a: Action) {
    match a
    case WorkerStep => !s.worker.NoThread? && !s.worker.InRun? && !s.worker.Parked? && !s.worker.Finished?
    case RunReturns => s.worker.InRun?
    case RunThrows => s.worker.InRun?
    case WorkerWakes => s.worker.Parked?
    case CallStart => s.controller.Idle?
    case CallStop => s.controller.Idle?
    case CallSuspend => s.controller.Idle?
    case CallResume => s.controller.Idle?
    case ControllerStep =>
      && !s.controller.Idle? && !s.controller.SuspendAsleep?
      && (s.controller.StopJoin? || s.controller.StartJoin? ==> s.worker.Finished?)
    case ControllerWakes => s.controller.SuspendAsleep?
  }

  function AfterWorkerStep(s: State): State {
    match s.worker
    case StartedCallbacks => s.(worker := LoopTest, startedCount := s.startedCount + 1)
    case LoopTest => s.(worker := if s.stop then SetStop else ClearSuspend)
    case ClearSuspend => s.(worker := SetRunning, suspend := false)
    case SetRunning => s.(worker := InRun, running := true)
    case CheckSuspend => s.(worker := if s.suspend then ClearRunning else SetStop)
    case ClearRunning => s.(worker := NotifyRunning, running := false)
    case NotifyRunning => WakeController(s.(worker := ParkTest))
    case ParkTest => s.(worker := if !s.suspend || s.stop then LoopTest else Parked)
    case ErrorCallbacks => s.(worker := SetStop)
    case SetStop => s.(worker := NotifySuspendCond, stop := true)
    case NotifySuspendCond => s.(worker := NotifyRunningCond)
    case NotifyRunningCond => WakeController(s.(worker := StoppedCallbacks))
    case StoppedCallbacks => s.(worker := Finished, stoppedCount := s.stoppedCount + 1)
    case NoThread => s
    case InRun => s
    case Parked => s
    case Finished => s
  }

  function AfterControllerStep(s: State): State {
    match s.controller
    case SuspendSet => s.(controller := SuspendTest, suspend := true)
    case SuspendTest => s.(controller := if !s.running || s.stop then Idle else SuspendAsleep)
    case ResumeClear => s.(controller := ResumeNotify, suspend := false)
    case ResumeNotify => WakeWorker(s.(controller := Idle))
    case StopProducer => s.(controller := StopSet)
    case StopSet => s.(controller := StopNotifySuspend, stop := true)
    case StopNotifySuspend => WakeWorker(s.(controller := StopNotifyRunning))
    case StopNotifyRunning => s.(controller := StopJoin)
    case StopJoin => s.(controller := Idle, worker := NoThread)
    case StartJoin => s.(controller := StartReset, worker := NoThread)
    case StartReset => s.(controller := StartProducer, stop := false, running := false)
    case StartProducer => s.(controller := StartSpawn)
    case StartSpawn => s.(controller := Idle, worker := StartedCallbacks, startedCount := 0, stoppedCount := 0)
    case Idle => s
    case SuspendAsleep => s
  }

  function Apply(s: State, a: Action): State
    requires Enabled(s, a)
  {
    match a
    case WorkerStep => AfterWorkerStep(s)
    case RunReturns => s.(worker := CheckSuspend)
    case RunThrows => s.(worker := ErrorCallbacks)
    case WorkerWakes => s.(worker := ParkTest)
    case CallStart =>
      if s.worker.NoThread? then s.(controller := StartReset)
      else if s.stop then s.(controller := StartJoin)
      else s
    case CallStop => if s.worker.NoThread? then s else s.(controller := StopProducer)
    case CallSuspend => s.(controller := SuspendSet)
    case CallResume => s.(controller := ResumeClear)
    case ControllerStep => AfterControllerStep(s)
    case ControllerWakes => s.(controller := SuspendTest)
  }

  /** An interleaving of the two threads from `s`. */
  predicate Legal(s: State, run: seq<Action>)
    decreases run
  {
    run == [] || (Enabled(s, run[0]) && Legal(Apply(s, run[0]), run[1..]))
  }

  function After(s: State, run: seq<Action>): State
    requires Legal(s, run)
    decreases run
  {
    if run == [] then s else After(Apply(s, run[0]), run[1..])
  }

  // ----- The inductive invariant -----

  predicate Starting(c: Controller) { c.StartReset? || c.StartProducer? || c.StartSpawn? }

  predicate Stopping(c: Controller) { c.StopNotifySuspend? || c.StopNotifyRunning? || c.StopJoin? }

  predicate Ending(w: Worker) {
    w.NotifySuspendCond? || w.NotifyRunningCond? || w.StoppedCallbacks? || w.Finished?
  }

  /** Between leaving `run_impl` on a suspend and the loop test after the park. */
  predicate Parking(w: Worker) { w.NotifyRunning? || w.ParkTest? || w.Parked? }

  /** At or before the entry into `run_impl`. */
  predicate BeforeRun(w: Worker) { w.StartedCallbacks? || w.LoopTest? || w.ClearSuspend? || w.SetRunning? }

  predicate FlagsMatch(s: State) {
    && (s.worker.InRun? || s.worker.CheckSuspend? || s.worker.ClearRunning? || s.worker.ErrorCallbacks? ==> s.running)
    && (s.worker.SetStop? ==> s.running || s.stop)
    && (Parking(s.worker) ==> !s.running)
    && (Ending(s.worker) ==> s.stop)
    && (s.worker.NoThread? ==> s.stop || !s.running)
    && (BeforeRun(s.worker) || s.controller.StartProducer? || s.controller.StartSpawn? ==> !s.running)
    && (Starting(s.controller) ==> s.worker.NoThread?)
    && (Stopping(s.controller) || s.controller.StartJoin? ==> s.stop && !s.worker.NoThread?)
    && (s.controller.StopProducer? || s.controller.StopSet? ==> !s.worker.NoThread?)
    && ((s.controller.SuspendTest? || s.controller.SuspendAsleep?) && (Parking(s.worker) || s.worker.ClearRunning?)
        ==> s.suspend)
  }

  /** A thread that sleeps although its condition holds is about to be notified. */
  predicate NoLostWakeup(s: State) {
    && (s.worker.Parked? && (s.stop || !s.suspend) ==> s.controller.ResumeNotify? || s.controller.StopNotifySuspend?)
    && (s.controller.SuspendAsleep? && (s.stop || !s.running) ==>
          s.worker.NotifyRunning? || s.worker.NotifySuspendCond? || s.worker.NotifyRunningCond?)
  }

  /** Every thread fires Started once, then Stopped once. */
  predicate CallbacksMatch(s: State) {
    !s.worker.NoThread? ==>
      && s.startedCount == (if s.worker.StartedCallbacks? then 0 else 1)
      && s.stoppedCount == (if s.worker.Finished? then 1 else 0)
  }

  predicate Inv(s: State) { FlagsMatch(s) && NoLostWakeup(s) && CallbacksMatch(s) }

  lemma FlagsStep(s: State, a: Action)
    requires FlagsMatch(s) && Enabled(s, a)
    ensures FlagsMatch(Apply(s, a))
  {
    match a {
      case WorkerStep => FlagsWorkerStep(s);
      case ControllerStep => FlagsControllerStep(s);
      case _ =>
        hide AfterWorkerStep, AfterControllerStep;
    }
  }

  lemma FlagsWorkerStep(s: State)
    requires FlagsMatch(s) && Enabled(s, WorkerStep)
    ensures FlagsMatch(AfterWorkerStep(s))
  {
    hide AfterControllerStep;
  }

  lemma FlagsControllerStep(s: State)
    requires FlagsMatch(s) && Enabled(s, ControllerStep)
    ensures FlagsMatch(AfterControllerStep(s))
  {
    hide AfterWorkerStep;
  }

  lemma WakeupStep(s: State, a: Action)
    requires FlagsMatch(s) && NoLostWakeup(s) && Enabled(s, a)
    ensures NoLostWakeup(Apply(s, a))
  {
  }

  lemma CallbacksStep(s: State, a: Action)
    requires FlagsMatch(s) && CallbacksMatch(s) && Enabled(s, a)
    ensures CallbacksMatch(Apply(s, a))
  {
  }

  lemma InvStep(s: State, a: Action)
    requires Inv(s) && Enabled(s, a)
    ensures Inv(Apply(s, a))
  {
    hide FlagsMatch, NoLostWakeup, CallbacksMatch, Enabled, Apply;
    FlagsStep(s, a);
    WakeupStep(s, a);
    CallbacksStep(s, a);
  }

  lemma {:induction false} InvAfter(s: State, run: seq<Action>)
    requires Inv(s) && Legal(s, run)
    ensures Inv(After(s, run))
    decreases run
  {
    hide Inv, Enabled, Apply;
    if run != [] {
      InvStep(s, run[0]);
      InvAfter(Apply(s, run[0]), run[1..]);
    }
  }

  /** The invariant in every state of every interleaving. */
  lemma InvAlways(run: seq<Action>)
    requires Legal(INIT, run)
    ensures Inv(After(INIT, run))
  {
    InvAfter(INIT, run);
  }

  // ----- What suspend() guarantees -----

  /**
   At the instant `suspend()` returns, in every interleaving, the producer is outside `run_impl` or the transfer is
   being stopped.
   */
  lemma SuspendReturnsOutsideRun(run: seq<Action>)
    requires Legal(INIT, run) && After(INIT, run).controller.SuspendTest?
    requires AfterControllerStep(After(INIT, run)).controller.Idle?
    ensures After(INIT, run).stop || !After(INIT, run).worker.InRun?
  {
    InvAlways(run);
    hide Legal, After;
  }

  /** No `resume()` takes effect and no new thread is started. */
  predicate Undisturbed(s: State, run: seq<Action>)
    requires Legal(s, run)
    decreases run
  {
    run == [] ||
    (!(run[0].ControllerStep? && (s.controller.ResumeClear? || s.controller.StartSpawn?))
     && Undisturbed(Apply(s, run[0]), run[1..]))
  }

  /** The worker is parked, ended, or on its way out because of a stop. */
  predicate Quiet(s: State) {
    || s.worker.NoThread? || s.worker.SetStop? || Ending(s.worker)
    || (Parking(s.worker) && (s.suspend || s.stop)) || (s.worker.LoopTest? && s.stop)
  }

  lemma QuietStep(s: State, a: Action)
    requires Inv(s) && Quiet(s) && Enabled(s, a)
    requires !(a.ControllerStep? && (s.controller.ResumeClear? || s.controller.StartSpawn?))
    ensures Quiet(Apply(s, a))
  {
    hide NoLostWakeup, CallbacksMatch;
  }

  lemma {:induction false} QuietStaysOut(s: State, run: seq<Action>)
    requires Inv(s) && Quiet(s) && Legal(s, run) && Undisturbed(s, run)
    ensures !After(s, run).worker.InRun?
    decreases run
  {
    hide Inv, Enabled, Apply;
    if run != [] {
      InvStep(s, run[0]);
      QuietStep(s, run[0]);
      QuietStaysOut(Apply(s, run[0]), run[1..]);
    }
  }

  /** A worker parked with `suspend_` set is not inside `run_impl` at any later time before a resume or a new start. */
  lemma ParkedStaysOut(run: seq<Action>, more: seq<Action>)
    requires Legal(INIT, run) && Parking(After(INIT, run).worker) && After(INIT, run).suspend
    requires Legal(After(INIT, run), more) && Undisturbed(After(INIT, run), more)
    ensures !After(After(INIT, run), more).worker.InRun?
  {
    InvAlways(run);
    QuietStaysOut(After(INIT, run), more);
  }

  /** From `s` the producer stays outside `run_impl` until a resume or a new start, whatever else happens. */
  ghost predicate StaysOut(s: State) {
    forall run :: Legal(s, run) && Undisturbed(s, run) ==> !After(s, run).worker.InRun?
  }

  function StepsToRun(w: Worker): nat {
    match w case StartedCallbacks => 4 case LoopTest => 3 case ClearSuspend => 2 case SetRunning => 1 case _ => 0
  }

  /** The worker alone walks into `run_impl`. */
  lemma {:induction false} WalksIn(s: State) returns (run: seq<Action>)
    requires BeforeRun(s.worker) && !s.stop && s.controller.Idle?
    ensures Legal(s, run) && Undisturbed(s, run) && After(s, run).worker.InRun?
    decreases StepsToRun(s.worker)
  {
    var s' := AfterWorkerStep(s);
    var rest := [];
    if !s.worker.SetRunning? {
      rest := WalksIn(s');
    }
    run := [WorkerStep] + rest;
    assert run[1..] == rest;
  }

  /**
   `suspend()` does not always win. When it returns without a stop, the producer stays outside `run_impl` until
   `resume()` if and only if there is no thread or the worker had already passed its suspend check and is parked.
   */
  lemma SuspendHoldsIff(run: seq<Action>)
    requires Legal(INIT, run)
    requires var s := After(INIT, run); s.controller.SuspendTest? && !s.running && !s.stop
    ensures var s := After(INIT, run);
            StaysOut(AfterControllerStep(s)) <==> s.worker.NoThread? || Parking(s.worker)
  {
    InvAlways(run);
    var s := After(INIT, run);
    var s' := AfterControllerStep(s);
    InvStep(s, ControllerStep);
    hide Legal, After;
    if s.worker.NoThread? || Parking(s.worker) {
      forall more | Legal(s', more) && Undisturbed(s', more) ensures !After(s', more).worker.InRun? {
        QuietStaysOut(s', more);
      }
    } else {
      var more := WalksIn(s');
      assert !StaysOut(s');
    }
  }

  // ----- When suspend() is heard -----

  /** The steps of one `suspend()` call: nothing after its return. */
  predicate DuringCall(s: State, run: seq<Action>)
    requires Legal(s, run)
    decreases run
  {
    run == [] || (!s.controller.Idle? && DuringCall(Apply(s, run[0]), run[1..]))
  }

  /** A producer inside `run_impl` is told to return, and if the call returns without a stop the producer stays out. */
  ghost predicate Obeyed(s: State) {
    (s.worker.InRun? ==> s.suspend || s.stop) && (s.controller.Idle? && !s.stop ==> StaysOut(s))
  }

  /** The call is obeyed at every moment, in every interleaving of its steps with those of the worker. */
  ghost predicate Heard(s: State) {
    forall run :: Legal(s, run) && DuringCall(s, run) ==> Obeyed(After(s, run))
  }

  predicate InSuspend(c: Controller) { c.SuspendTest? || c.SuspendAsleep? || c.Idle? }

  /** The request stands: the worker will not pass the loop top again unless it has been stopped. */
  predicate Standing(s: State) {
    && InSuspend(s.controller)
    && (s.stop || (s.suspend && !BeforeRun(s.worker)))
    && (s.controller.Idle? ==> s.stop || s.worker.NoThread? || Parking(s.worker))
  }

  lemma StandingStep(s: State, a: Action)
    requires Inv(s) && Standing(s) && !s.controller.Idle? && Enabled(s, a)
    ensures Standing(Apply(s, a))
  {
    hide NoLostWakeup, CallbacksMatch;
  }

  lemma StandingIsObeyed(s: State)
    requires Inv(s) && Standing(s)
    ensures Obeyed(s)
  {
    if s.controller.Idle? && !s.stop {
      forall more | Legal(s, more) && Undisturbed(s, more) ensures !After(s, more).worker.InRun? {
        QuietStaysOut(s, more);
      }
    }
  }

  lemma {:induction false} StandingStaysObeyed(s: State, run: seq<Action>)
    requires Inv(s) && Standing(s) && Legal(s, run) && DuringCall(s, run)
    ensures Obeyed(After(s, run))
    decreases run
  {
    hide Inv, Enabled, Apply, Standing, Obeyed;
    if run == [] {
      StandingIsObeyed(s);
    } else {
      InvStep(s, run[0]);
      StandingStep(s, run[0]);
      StandingStaysObeyed(Apply(s, run[0]), run[1..]);
    }
  }

  /**
   `suspend()` is heard if and only if, when it sets `suspend_`, the transfer is stopping or the worker is not on its
   way into `run_impl`. A worker before its loop top clears the request; a worker past it keeps the request but enters
   `run_impl` all the same, after the call may have returned.
   */
  lemma SuspendHeardIff(run: seq<Action>)
    requires Legal(INIT, run) && After(INIT, run).controller.SuspendSet?
    ensures var s := After(INIT, run);
            Heard(AfterControllerStep(s)) <==> s.stop || !BeforeRun(s.worker)
  {
    InvAlways(run);
    var s := After(INIT, run);
    var s' := AfterControllerStep(s);
    InvStep(s, ControllerStep);
    hide Legal, After;
    if s.stop || !BeforeRun(s.worker) {
      forall more | Legal(s', more) && DuringCall(s', more) ensures Obeyed(After(s', more)) {
        StandingStaysObeyed(s', more);
      }
    } else {
      ReturnsAtOnce(s');
    }
  }

  /** A worker on its way in: the call can return at once, and the worker walk into `run_impl`. */
  lemma ReturnsAtOnce(s: State)
    requires Inv(s) && s.controller.SuspendTest? && !s.stop && BeforeRun(s.worker)
    ensures !Heard(s)
  {
    var returned := s.(controller := Idle);
    var call := [ControllerStep];
    assert Legal(s, call) && DuringCall(s, call) && After(s, call) == returned by {
      assert Apply(s, ControllerStep) == returned && call[1..] == [];
    }
    hide Legal, After, DuringCall;
    var more := WalksIn(returned);
    assert !StaysOut(returned);
  }

  // ----- What stop() guarantees -----

  /** How far the worker is from its end once `stop_` is set. */
  function WorkerRank(w: Worker): nat {
    match w
    case ClearSuspend => 15 case SetRunning => 14 case InRun => 13 case CheckSuspend => 12 case ClearRunning => 11
    case NotifyRunning => 10 case Parked => 9 case ParkTest => 8 case StartedCallbacks => 7 case LoopTest => 6
    case ErrorCallbacks => 5 case SetStop => 4 case NotifySuspendCond => 3 case NotifyRunningCond => 2
    case StoppedCallbacks => 1 case Finished => 0 case NoThread => 0
  }

  function Rank(s: State): nat {
    WorkerRank(s.worker)
    + (match s.controller case StopNotifySuspend => 3 case StopNotifyRunning => 2 case StopJoin => 1 case _ => 0)
  }

  predicate Stopped(s: State) { s.controller.Idle? && s.worker.NoThread? && s.stop }

  /** Once `stop()` has set `stop_`, every step of either thread brings its return closer. */
  lemma StopStep(s: State, a: Action)
    requires Inv(s) && Stopping(s.controller) && Enabled(s, a)
    ensures Rank(Apply(s, a)) < Rank(s)
    ensures Stopping(Apply(s, a).controller) || Stopped(Apply(s, a))
  {
    hide NoLostWakeup, CallbacksMatch;
  }

  /** And there is always a step to take that is not a spurious wakeup: no thread sleeps for ever. */
  lemma StopNeverStuck(s: State)
    requires Inv(s) && Stopping(s.controller)
    ensures Enabled(s, WorkerStep) || Enabled(s, RunReturns) || Enabled(s, ControllerStep)
  {
  }

  /**
   `stop()` returns. From any reachable state in which it has set `stop_`, every interleaving of at most
   `Rank` steps, at most 18, has joined the worker and come back.
   */
  lemma {:induction false} StopReturns(s: State, run: seq<Action>) returns (n: nat)
    requires Inv(s) && Stopping(s.controller) && Legal(s, run) && |run| >= Rank(s)
    ensures n <= |run| && n <= Rank(s) <= 18
    ensures Legal(s, run[..n]) && Stopped(After(s, run[..n]))
    decreases run
  {
    hide Inv;
    RankPositive(s);
    StopStep(s, run[0]);
    InvStep(s, run[0]);
    hide Enabled, Apply, Rank, Stopped;
    var s' := Apply(s, run[0]);
    if Stopped(s') {
      n := 1;
      assert run[..1] == [run[0]];
    } else {
      var m := StopReturns(s', run[1..]);
      n := m + 1;
      assert run[..n][0] == run[0] && run[..n][1..] == run[1..][..m];
    }
  }

  lemma RankPositive(s: State)
    requires Stopping(s.controller)
    ensures 0 < Rank(s) <= 18
  {
  }

  /** Entries into `run_impl`. */
  function Entries(s: State, run: seq<Action>): nat
    requires Legal(s, run)
    decreases run
  {
    if run == [] then 0
    else (if run[0].WorkerStep? && s.worker.SetRunning? then 1 else 0) + Entries(Apply(s, run[0]), run[1..])
  }

  /** No new `start()` resets the flags. */
  predicate NotRestarted(s: State, run: seq<Action>)
    requires Legal(s, run)
    decreases run
  {
    run == [] || (!(run[0].ControllerStep? && s.controller.StartReset?) && NotRestarted(Apply(s, run[0]), run[1..]))
  }

  /** Whether the worker can still enter `run_impl` after a stop: it had read `stop_` just before. */
  predicate PastLoopTest(w: Worker) { w.ClearSuspend? || w.SetRunning? }

  lemma EntryStep(s: State, a: Action)
    requires Inv(s) && s.stop && Enabled(s, a) && !(a.ControllerStep? && s.controller.StartReset?)
    requires !(a.ControllerStep? && s.controller.StartSpawn?)
    ensures Apply(s, a).stop
    ensures (if a.WorkerStep? && s.worker.SetRunning? then 1 else 0)
              + (if PastLoopTest(Apply(s, a).worker) then 1 else 0)
         <= if PastLoopTest(s.worker) then 1 else 0
  {
    hide NoLostWakeup, CallbacksMatch;
  }

  /** With `stop_` set, a start in progress has not yet passed its reset. */
  predicate BeforeReset(s: State) { !s.controller.StartProducer? && !s.controller.StartSpawn? }

  lemma BeforeResetStep(s: State, a: Action)
    requires BeforeReset(s) && Enabled(s, a) && !(a.ControllerStep? && s.controller.StartReset?)
    ensures BeforeReset(Apply(s, a))
  {
  }

  /**
   Once `stop_` is set the worker enters `run_impl` at most once more, and not at all unless it had just read
   `stop_` as false at its loop test.
   */
  lemma {:induction false} AtMostOneMoreRun(s: State, run: seq<Action>)
    requires Inv(s) && s.stop && BeforeReset(s) && Legal(s, run) && NotRestarted(s, run)
    ensures Entries(s, run) <= if PastLoopTest(s.worker) then 1 else 0
    decreases run
  {
    hide Inv, Enabled, Apply, PastLoopTest;
    if run != [] {
      InvStep(s, run[0]);
      EntryStep(s, run[0]);
      BeforeResetStep(s, run[0]);
      AtMostOneMoreRun(Apply(s, run[0]), run[1..]);
    }
  }

  // ----- Two interleavings -----

  lemma {:induction false} Extend(s: State, run: seq<Action>, a: Action)
    requires Legal(s, run) && Enabled(After(s, run), a)
    ensures Legal(s, run + [a]) && After(s, run + [a]) == Apply(After(s, run), a)
    decreases run
  {
    hide Enabled, Apply;
    if run == [] {
      assert run + [a] == [a] && [a][1..] == [];
    } else {
      assert (run + [a])[1..] == run[1..] + [a];
      Extend(Apply(s, run[0]), run[1..], a);
    }
  }

  /** A first start, up to the worker's loop top. */
  const START: seq<Action> := [CallStart, ControllerStep, ControllerStep, ControllerStep, WorkerStep, WorkerStep]

  /** `suspend()` is called just before the worker clears the flag. */
  const RACE: seq<Action> := START + [CallSuspend] + [ControllerStep]

  lemma StartReached()
    ensures Legal(INIT, START)
    ensures After(INIT, START) == State(ClearSuspend, Idle, false, false, false, 1, 0)
  {
    var c, w := ControllerStep, WorkerStep;
    Extend(INIT, [], CallStart);
    Extend(INIT, [CallStart], c);
    Extend(INIT, [CallStart] + [c], c);
    Extend(INIT, [CallStart] + [c] + [c], c);
    Extend(INIT, [CallStart] + [c] + [c] + [c], w);
    Extend(INIT, [CallStart] + [c] + [c] + [c] + [w], w);
    assert START == [CallStart] + [c] + [c] + [c] + [w] + [w];
  }

  lemma RaceReached()
    ensures Legal(INIT, RACE)
    ensures After(INIT, RACE) == State(ClearSuspend, SuspendTest, false, true, false, 1, 0)
  {
    StartReached();
    Extend(INIT, START, CallSuspend);
    Extend(INIT, START + [CallSuspend], ControllerStep);
  }

  /** A lost suspend is reachable: `suspend()` returns, nothing resumes, and the producer runs. */
  lemma SuspendCanBeLost()
    ensures Legal(INIT, RACE) && !StaysOut(AfterControllerStep(After(INIT, RACE)))
  {
    RaceReached();
    SuspendHoldsIff(RACE);
  }

  /**
   A suspend that waits on a producer nobody asked to return is reachable: the request was cleared, so
   `should_stop()` is false while the controller sleeps.
   */
  lemma SuspendCanWaitUnheard()
    ensures exists run :: Legal(INIT, run) &&
              var s := After(INIT, run); s.controller.SuspendAsleep? && s.worker.InRun? && !s.suspend && !s.stop
  {
    RaceReached();
    Extend(INIT, RACE, WorkerStep);
    Extend(INIT, RACE + [WorkerStep], WorkerStep);
    Extend(INIT, RACE + [WorkerStep] + [WorkerStep], ControllerStep);
    hide Legal, After, RACE;
  }
}

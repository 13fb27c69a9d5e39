/** What the controller's calls achieve: each one reaches its goal within a fixed number of steps. */
module TransferProgress {
  import opened TransferThread

  predicate IsCall(a: Action) { a.CallStart? || a.CallStop? || a.CallSuspend? || a.CallResume? }

  predicate IsSpurious(a: Action) { a.WorkerWakes? || a.ControllerWakes? }

  /** The controller makes no further call. */
  predicate NoCalls(run: seq<Action>) { forall i :: 0 <= i < |run| ==> !IsCall(run[i]) }

  /** No condition variable wakes up without a notification. */
  predicate NoSpurious(run: seq<Action>) { forall i :: 0 <= i < |run| ==> !IsSpurious(run[i]) }

  // ----- resume() -----

  /** After `resume()` has cleared `suspend_`: a parked worker is on its way back. */
  predicate Resuming(s: State) {
    && !s.stop && !s.suspend
    && (s.controller.ResumeNotify? || (s.controller.Idle? && !s.worker.Parked?))
    && (Parking(s.worker) || s.worker.LoopTest? || s.worker.ClearSuspend? || s.worker.SetRunning?)
  }

  function ResumeRank(s: State): nat {
    (match s.worker
     case NotifyRunning => 6 case Parked => 5 case ParkTest => 4 case LoopTest => 3 case ClearSuspend => 2
     case SetRunning => 1 case _ => 0)
    + if s.controller.ResumeNotify? then 1 else 0
  }

  predicate Running(s: State) { s.worker.InRun? }

  lemma ResumeStep(s: State, a: Action)
    requires Inv(s) && Resuming(s) && Enabled(s, a) && !IsCall(a)
    ensures 0 < ResumeRank(s) <= 7
    ensures Running(Apply(s, a)) || (Resuming(Apply(s, a)) && ResumeRank(Apply(s, a)) < ResumeRank(s))
  {
    hide FlagsMatch, NoLostWakeup, CallbacksMatch;
  }

  /** There is always a step to take that is not a spurious wakeup. */
  lemma ResumeNeverStuck(s: State)
    requires Resuming(s)
    ensures Enabled(s, WorkerStep) || Enabled(s, ControllerStep)
  {
  }

  /** Every interleaving without another call is back inside `run_impl` within the rank. */
  lemma {:induction false} ResumingRuns(s: State, run: seq<Action>) returns (n: nat)
    requires Inv(s) && Resuming(s) && Legal(s, run) && NoCalls(run) && |run| >= ResumeRank(s)
    ensures n <= |run| && n <= ResumeRank(s) <= 7
    ensures Legal(s, run[..n]) && Running(After(s, run[..n]))
    decreases run
  {
    hide Inv;
    ResumeRankPositive(s);
    ResumeStep(s, run[0]);
    InvStep(s, run[0]);
    hide Enabled, Apply, ResumeRank, Running, Resuming;
    var s' := Apply(s, run[0]);
    if Running(s') {
      n := 1;
      assert run[..1] == [run[0]];
    } else {
      var m := ResumingRuns(s', run[1..]);
      n := m + 1;
      assert run[..n][0] == run[0] && run[..n][1..] == run[1..][..m];
    }
  }

  lemma ResumeRankPositive(s: State)
    requires Resuming(s)
    ensures 0 < ResumeRank(s) <= 7
  {
  }

  /**
   `resume()` works. From the moment it clears `suspend_` on a parked worker, with no stop, every interleaving without
   another call has the producer back inside `run_impl` after at most 7 steps.
   */
  lemma ResumeReturnsToRun(s: State, run: seq<Action>) returns (n: nat)
    requires Inv(s) && s.controller.ResumeClear? && Parking(s.worker) && !s.stop
    requires Legal(Apply(s, ControllerStep), run) && NoCalls(run) && |run| >= 7
    ensures n <= 7 && Legal(Apply(s, ControllerStep), run[..n])
    ensures After(Apply(s, ControllerStep), run[..n]).worker.InRun?
  {
    InvStep(s, ControllerStep);
    assert Resuming(Apply(s, ControllerStep));
    ResumeRankPositive(Apply(s, ControllerStep));
    n := ResumingRuns(Apply(s, ControllerStep), run);
  }

  // ----- start() -----

  /** A start in progress: an ended thread still to join, the reset, the new thread up to `run_impl`. */
  predicate StartingUp(s: State) {
    || s.controller.StartJoin? || s.controller.StartReset?
    || ((s.controller.StartProducer? || s.controller.StartSpawn?) && !s.stop)
    || (s.controller.Idle? && !s.stop && BeforeRun(s.worker))
  }

  function StartRank(s: State): nat {
    match s.controller
    case StartJoin => 8 + WorkerRank(s.worker)
    case StartReset => 7
    case StartProducer => 6
    case StartSpawn => 5
    case _ => StepsToRun(s.worker)
  }

  /** The new thread is inside `run_impl` and `start()` has returned. */
  predicate Started(s: State) { s.worker.InRun? && s.controller.Idle? && !s.stop }

  lemma StartStep(s: State, a: Action)
    requires Inv(s) && StartingUp(s) && Enabled(s, a) && !IsCall(a)
    ensures 0 < StartRank(s) <= 23
    ensures Started(Apply(s, a)) || (StartingUp(Apply(s, a)) && StartRank(Apply(s, a)) < StartRank(s))
  {
    hide CallbacksMatch;
  }

  lemma StartNeverStuck(s: State)
    requires Inv(s) && StartingUp(s)
    ensures Enabled(s, WorkerStep) || Enabled(s, RunReturns) || Enabled(s, ControllerStep)
  {
    hide CallbacksMatch;
  }

  lemma StartRankPositive(s: State)
    requires StartingUp(s)
    ensures 0 < StartRank(s) <= 23
  {
  }

  lemma {:induction false} StartingUpStarts(s: State, run: seq<Action>) returns (n: nat)
    requires Inv(s) && StartingUp(s) && Legal(s, run) && NoCalls(run) && |run| >= StartRank(s)
    ensures n <= |run| && n <= StartRank(s) <= 23
    ensures Legal(s, run[..n]) && Started(After(s, run[..n]))
    decreases run
  {
    hide Inv;
    StartRankPositive(s);
    StartStep(s, run[0]);
    InvStep(s, run[0]);
    hide Enabled, Apply, StartRank, Started, StartingUp;
    var s' := Apply(s, run[0]);
    if Started(s') {
      n := 1;
      assert run[..1] == [run[0]];
    } else {
      var m := StartingUpStarts(s', run[1..]);
      n := m + 1;
      assert run[..n][0] == run[0] && run[..n][1..] == run[1..][..m];
    }
  }

  /**
   `start()` works. Called with no thread, or on one that has stopped, every interleaving without another call has a
   thread inside `run_impl`, with `stop_` clear, after at most 23 steps. Called on a running thread it does nothing.
   */
  lemma StartReachesRun(s: State, run: seq<Action>) returns (n: nat)
    requires Inv(s) && s.controller.Idle? && (s.worker.NoThread? || s.stop)
    requires Legal(Apply(s, CallStart), run) && NoCalls(run) && |run| >= 23
    ensures n <= 23 && Legal(Apply(s, CallStart), run[..n])
    ensures var r := After(Apply(s, CallStart), run[..n]); r.worker.InRun? && !r.stop
  {
    InvStep(s, CallStart);
    assert StartingUp(Apply(s, CallStart));
    StartRankPositive(Apply(s, CallStart));
    n := StartingUpStarts(Apply(s, CallStart), run);
  }

  lemma StartOnRunningThread(s: State)
    requires s.controller.Idle? && !s.worker.NoThread? && !s.stop
    ensures Apply(s, CallStart) == s
  {
  }

  // ----- suspend() -----

  /** A suspend that is heard and has not returned. */
  predicate Waiting(s: State) { Standing(s) && !s.controller.Idle? }

  function SuspendRank(s: State): nat {
    2 * (if s.worker.Parked? then 0 else WorkerRank(s.worker))
    + if s.controller.SuspendTest? then 2 else 1
  }

  predicate Returned(s: State) { s.controller.Idle? }

  lemma SuspendStep(s: State, a: Action)
    requires Inv(s) && Waiting(s) && Enabled(s, a) && !IsSpurious(a)
    ensures 0 < SuspendRank(s) <= 32
    ensures Returned(Apply(s, a)) || (Waiting(Apply(s, a)) && SuspendRank(Apply(s, a)) < SuspendRank(s))
  {
    StandingStep(s, a);
    hide Standing, CallbacksMatch;
    assert InSuspend(s.controller) && (s.stop || !BeforeRun(s.worker)) by { WaitingMeans(s); }
  }

  lemma WaitingMeans(s: State)
    requires Waiting(s)
    ensures s.controller.SuspendTest? || s.controller.SuspendAsleep?
    ensures s.stop || (s.suspend && !BeforeRun(s.worker))
  {
  }

  lemma SuspendNeverStuck(s: State)
    requires Inv(s) && Waiting(s)
    ensures Enabled(s, WorkerStep) || Enabled(s, RunReturns) || Enabled(s, ControllerStep)
  {
    hide CallbacksMatch;
  }

  lemma SuspendRankPositive(s: State)
    ensures 0 < SuspendRank(s) <= 32
  {
  }

  lemma {:induction false} WaitingReturns(s: State, run: seq<Action>) returns (n: nat)
    requires Inv(s) && Waiting(s) && Legal(s, run) && NoSpurious(run) && |run| >= SuspendRank(s)
    ensures n <= |run| && n <= SuspendRank(s) <= 32
    ensures Legal(s, run[..n]) && Returned(After(s, run[..n]))
    decreases run
  {
    hide Inv;
    SuspendRankPositive(s);
    SuspendStep(s, run[0]);
    InvStep(s, run[0]);
    hide Enabled, Apply, SuspendRank, Returned, Waiting;
    var s' := Apply(s, run[0]);
    if Returned(s') {
      n := 1;
      assert run[..1] == [run[0]];
    } else {
      var m := WaitingReturns(s', run[1..]);
      n := m + 1;
      assert run[..n][0] == run[0] && run[..n][1..] == run[1..][..m];
    }
  }

  /**
   A suspend that is heard returns. From the moment it sets `suspend_`, with the transfer stopping or the worker not on
   its way into `run_impl`, every interleaving without spurious wakeups has returned from it after at most 32 steps.
   */
  lemma SuspendReturns(s: State, run: seq<Action>) returns (n: nat)
    requires Inv(s) && s.controller.SuspendSet? && (s.stop || !BeforeRun(s.worker))
    requires Legal(Apply(s, ControllerStep), run) && NoSpurious(run) && |run| >= 32
    ensures n <= 32 && Legal(Apply(s, ControllerStep), run[..n])
    ensures After(Apply(s, ControllerStep), run[..n]).controller.Idle?
  {
    InvStep(s, ControllerStep);
    assert Waiting(Apply(s, ControllerStep));
    SuspendRankPositive(Apply(s, ControllerStep));
    n := WaitingReturns(Apply(s, ControllerStep), run);
  }

  // ----- stop() from its call -----

  predicate InStop(s: State) { s.controller.StopProducer? || s.controller.StopSet? || Stopping(s.controller) }

  /** How many steps a worker can take on its own before `stop_` is set: at most once round its loop. */
  function AloneRank(s: State): nat {
    if s.stop then WorkerRank(s.worker)
    else if s.suspend then
      match s.worker
      case StartedCallbacks => 41 case LoopTest => 40 case ClearSuspend => 39 case SetRunning => 38 case InRun => 37
      case CheckSuspend => 36 case ClearRunning => 35 case NotifyRunning => 34 case ParkTest => 33
      case _ => WorkerRank(s.worker)
    else
      match s.worker
      case ClearRunning => 22 case NotifyRunning => 21 case ParkTest => 20 case StartedCallbacks => 19
      case LoopTest => 18 case ClearSuspend => 17 case SetRunning => 16
      case _ => WorkerRank(s.worker)
  }

  function CallRank(s: State): nat {
    match s.controller
    case StopProducer => 100 + AloneRank(s)
    case StopSet => 50 + AloneRank(s)
    case _ => Rank(s)
  }

  lemma StopCallStep(s: State, a: Action)
    requires Inv(s) && InStop(s) && Enabled(s, a) && !IsSpurious(a)
    ensures CallRank(Apply(s, a)) < CallRank(s)
    ensures InStop(Apply(s, a)) || Stopped(Apply(s, a))
  {
    if Stopping(s.controller) {
      StopStep(s, a);
      hide AfterWorkerStep, AfterControllerStep, AloneRank, Inv;
      assert !s.controller.StopProducer? && !s.controller.StopSet?;
      assert CallRank(s) == Rank(s) && CallRank(Apply(s, a)) == Rank(Apply(s, a));
    } else if a.ControllerStep? {
      hide AfterWorkerStep, Inv;
    } else {
      WorkerAlone(s, a);
    }
  }

  /** Before `stop_` is set the worker goes at most once round its loop: then it is at its end, or parked. */
  lemma WorkerAlone(s: State, a: Action)
    requires Inv(s) && (s.controller.StopProducer? || s.controller.StopSet?)
    requires a.WorkerStep? || a.RunReturns? || a.RunThrows?
    requires Enabled(s, a)
    ensures AloneRank(Apply(s, a)) < AloneRank(s) && Apply(s, a).controller == s.controller
  {
    hide AfterControllerStep, CallbacksMatch;
  }

  lemma CallRankPositive(s: State)
    requires InStop(s)
    ensures 0 < CallRank(s) <= 141
  {
  }

  lemma {:induction false} StoppingReturns(s: State, run: seq<Action>) returns (n: nat)
    requires Inv(s) && InStop(s) && Legal(s, run) && NoSpurious(run) && |run| >= CallRank(s)
    ensures n <= |run| && n <= CallRank(s) <= 141
    ensures Legal(s, run[..n]) && Stopped(After(s, run[..n]))
    decreases run
  {
    hide Inv;
    CallRankPositive(s);
    StopCallStep(s, run[0]);
    InvStep(s, run[0]);
    hide Enabled, Apply, CallRank, Stopped, InStop;
    var s' := Apply(s, run[0]);
    if Stopped(s') {
      n := 1;
      assert run[..1] == [run[0]];
    } else {
      var m := StoppingReturns(s', run[1..]);
      n := m + 1;
      assert run[..n][0] == run[0] && run[..n][1..] == run[1..][..m];
    }
  }

  /**
   `stop()` works from its call on. With a thread, every interleaving without spurious wakeups has set `stop_`, joined
   the worker and returned after at most 141 steps, wherever the worker was.
   */
  lemma StopCallReturns(s: State, run: seq<Action>) returns (n: nat)
    requires Inv(s) && s.controller.Idle? && !s.worker.NoThread?
    requires Legal(Apply(s, CallStop), run) && NoSpurious(run) && |run| >= 141
    ensures n <= 141 && Legal(Apply(s, CallStop), run[..n])
    ensures Stopped(After(Apply(s, CallStop), run[..n]))
  {
    InvStep(s, CallStop);
    CallRankPositive(Apply(s, CallStop));
    n := StoppingReturns(Apply(s, CallStop), run);
  }
}

/** The timer's handshake: one controlling thread starts and stops a worker that sleeps on a
    condition variable and raises the event whenever the sleep times out. The mutex, the lost or
    spurious notifications and the clock's choice of when to time out are all steps of the model.
 */
module Timers {

  datatype Event =
    | Started        // `Start` found the flag set and cleared it
    | Raised         // a worker calls the handlers
    | Handled        // and they return
    | StopRequested  // `Stop` sets the flag, under the mutex
    | Stopped        // `Stop` returns, after the worker's future

  datatype Holder = Free | ByController | ByWorker(id: nat)

  /** Where the controlling thread is. */
  datatype Controller = Idle | Launching | AwaitingLock | Locked | Requested | Notifying | Joining

  /** Where a worker is. `Reacquire` and `Decide` carry whether the wait ended in a timeout. */
  datatype Worker =
    | Test | Locking | Holding | Waiting | Reacquire(timeout: bool) | Decide(timeout: bool)
    | Raising | Releasing | Exited

  datatype State = State(
    needStop: bool, enabled: bool, mutex: Holder, controller: Controller, workers: seq<Worker>, log: seq<Event>)

  const INITIAL := State(true, true, Free, Idle, [], [])

  datatype Step =
    | CallStart | Launch
    | CallStop | LockToStop | RequestStop | UnlockToNotify | Notify(woken: nat, timeout: bool) | NotifyNobody | Join
    | SetEnabled(value: bool)
    | TestFlag(id: nat) | Lock(id: nat) | BeginWait(id: nat) | TimeOut(id: nat) | Wake(id: nat)
    | LockAgain(id: nat) | RaiseOrNot(id: nat) | ReturnFromHandlers(id: nat) | Unlock(id: nat)

  predicate At(s: State, id: nat, w: Worker) { id < |s.workers| && s.workers[id] == w }

  predicate SomeoneAt(s: State, w: Worker) { exists i :: 0 <= i < |s.workers| && s.workers[i] == w }

  /** When a step can happen. The setter is called by the controlling thread between its other calls, or
      by a handler. A notified waiter may still report a timeout, if its deadline has passed by then.
   */
  predicate Enabled(s: State, step: Step) {
    match step
    case CallStart => s.controller == Idle
    case Launch => s.controller == Launching
    case CallStop => s.controller == Idle
    case LockToStop => s.controller == AwaitingLock && s.mutex == Free
    case RequestStop => s.controller == Locked
    case UnlockToNotify => s.controller == Requested
    case Notify(i, _) => s.controller == Notifying && At(s, i, Waiting)
    case NotifyNobody => s.controller == Notifying && !SomeoneAt(s, Waiting)
    case Join => s.controller == Joining && s.workers != [] && s.workers[|s.workers| - 1] == Exited
    case SetEnabled(_) => s.controller == Idle || SomeoneAt(s, Raising)
    case TestFlag(i) => At(s, i, Test)
    case Lock(i) => At(s, i, Locking) && s.mutex == Free
    case BeginWait(i) => At(s, i, Holding)
    case TimeOut(i) => At(s, i, Waiting)
    case Wake(i) => At(s, i, Waiting)
    case LockAgain(i) => i < |s.workers| && s.workers[i].Reacquire? && s.mutex == Free
    case RaiseOrNot(i) => i < |s.workers| && s.workers[i].Decide?
    case ReturnFromHandlers(i) => At(s, i, Raising)
    case Unlock(i) => At(s, i, Releasing)
  }

  function Move(s: State, id: nat, w: Worker): State
    requires id < |s.workers|
  {
    s.(workers := s.workers[id := w])
  }

  function Apply(s: State, step: Step): State
    requires Enabled(s, step)
  {
    match step
    // Start
    case CallStart =>
      if !s.needStop then s
      else s.(needStop := false, controller := Launching, log := s.log + [Started])
    case Launch => s.(workers := s.workers + [Test], controller := Idle)
    // Stop
    case CallStop => if s.needStop then s else s.(controller := AwaitingLock)
    case LockToStop => s.(mutex := ByController, controller := Locked)
    case RequestStop => s.(needStop := true, controller := Requested, log := s.log + [StopRequested])
    case UnlockToNotify => s.(mutex := Free, controller := Notifying)
    case Notify(i, timeout) => Move(s, i, Reacquire(timeout)).(controller := Joining)
    case NotifyNobody => s.(controller := Joining)
    case Join => s.(controller := Idle, log := s.log + [Stopped])
    case SetEnabled(b) => s.(enabled := b)
    // the worker's loop
    case TestFlag(i) => Move(s, i, if s.needStop then Exited else Locking)
    case Lock(i) => Move(s, i, Holding).(mutex := ByWorker(i))
    case BeginWait(i) => Move(s, i, Waiting).(mutex := Free)
    case TimeOut(i) => Move(s, i, Reacquire(true))
    case Wake(i) => Move(s, i, Reacquire(false))
    case LockAgain(i) => Move(s, i, Decide(s.workers[i].timeout)).(mutex := ByWorker(i))
    case RaiseOrNot(i) =>
      if s.workers[i].timeout && s.enabled then Move(s, i, Raising).(log := s.log + [Raised])
      else Move(s, i, Releasing)
    case ReturnFromHandlers(i) => Move(s, i, Releasing).(log := s.log + [Handled])
    case Unlock(i) => Move(s, i, Test).(mutex := Free)
  }

  predicate ByWorkerThread(step: Step) {
    step.TestFlag? || step.Lock? || step.BeginWait? || step.TimeOut? || step.Wake? || step.LockAgain?
    || step.RaiseOrNot? || step.ReturnFromHandlers? || step.Unlock?
  }

  // ---- The object whose fields the steps change ----

  class TimerImpl {
    var needStop: bool
    var enabled: bool
    var mutex: Holder
    var controller: Controller
    var workers: seq<Worker>
    ghost var log: seq<Event>
    ghost var history: seq<Step>

    ghost function View(): State
      reads this
    {
      State(needStop, enabled, mutex, controller, workers, log)
    }

    /** The fields are what a run of steps has made of them. */
    ghost predicate Valid()
      reads this
    {
      Legal(history) && View() == After(history)
    }

    constructor ()
      ensures Valid() && history == [] && View() == INITIAL
    {
      needStop, enabled, mutex, controller, workers, log, history := true, true, Free, Idle, [], [], [];
    }

    /** The controlling thread, in `Start`, `Stop` and the setter, which a handler may call too. */
    method Control(step: Step)
      requires Valid() && !ByWorkerThread(step) && Enabled(View(), step)
      modifies this
      ensures Valid() && history == old(history) + [step] && View() == Apply(old(View()), step)
      ensures enabled == LastSet(history) && needStop == Stopping(history) && log == LogOf(history)
      ensures GoodLog(log)
    {
      hide Legal, After, GoodLog, LastSet, Stopping, LogOf;
      OneMore(history, step);
      history := history + [step];
      RunsLogWell(history);
      StateFollowsSteps(history);
      match step
      case CallStart =>
        if needStop {
          needStop, controller := false, Launching;
          log := log + [Started];
        }
      case Launch => workers, controller := workers + [Test], Idle;
      case CallStop =>
        if !needStop {
          controller := AwaitingLock;
        }
      case LockToStop => mutex, controller := ByController, Locked;
      case RequestStop =>
        needStop, controller := true, Requested;
        log := log + [StopRequested];
      case UnlockToNotify => mutex, controller := Free, Notifying;
      case Notify(i, timeout) => workers, controller := workers[i := Reacquire(timeout)], Joining;
      case NotifyNobody => controller := Joining;
      case Join =>
        controller := Idle;
        log := log + [Stopped];
      case SetEnabled(value) => enabled := value;
    }

    /** A worker's loop. */
    method Work(step: Step)
      requires Valid() && ByWorkerThread(step) && Enabled(View(), step)
      modifies this
      ensures Valid() && history == old(history) + [step] && View() == Apply(old(View()), step)
      ensures enabled == LastSet(history) && needStop == Stopping(history) && log == LogOf(history)
      ensures GoodLog(log)
    {
      hide Legal, After, GoodLog, LastSet, Stopping, LogOf;
      OneMore(history, step);
      history := history + [step];
      RunsLogWell(history);
      StateFollowsSteps(history);
      match step
      case TestFlag(i) => workers := workers[i := if needStop then Exited else Locking];
      case Lock(i) => workers, mutex := workers[i := Holding], ByWorker(i);
      case BeginWait(i) => workers, mutex := workers[i := Waiting], Free;
      case TimeOut(i) => workers := workers[i := Reacquire(true)];
      case Wake(i) => workers := workers[i := Reacquire(false)];
      case LockAgain(i) => workers, mutex := workers[i := Decide(workers[i].timeout)], ByWorker(i);
      case RaiseOrNot(i) =>
        if workers[i].timeout && enabled {
          workers := workers[i := Raising];
          log := log + [Raised];
        } else {
          workers := workers[i := Releasing];
        }
      case ReturnFromHandlers(i) =>
        workers := workers[i := Releasing];
        log := log + [Handled];
      case Unlock(i) => workers, mutex := workers[i := Test], Free;
    }
  }

  // ---- Runs ----

  function After(steps: seq<Step>): State
    requires Legal(steps)
    decreases |steps|, 1
  {
    if steps == [] then INITIAL
    else var k := |steps| - 1; Apply(After(steps[..k]), steps[k])
  }

  predicate Legal(steps: seq<Step>)
    decreases |steps|, 0
  {
    steps == []
    || (var k := |steps| - 1; Legal(steps[..k]) && Enabled(After(steps[..k]), steps[k]))
  }

  lemma OneMore(steps: seq<Step>, step: Step)
    requires Legal(steps) && Enabled(After(steps), step)
    ensures Legal(steps + [step]) && After(steps + [step]) == Apply(After(steps), step)
  {
    assert (steps + [step])[..|steps|] == steps;
  }

  // ---- What the log of a run is to look like ----

  /** Every call of the handlers lies between a start and the return of its stop. */
  ghost predicate RaisesEnclosed(log: seq<Event>) {
    forall j :: 0 <= j < |log| && log[j] == Raised ==> exists i :: OpenSince(log, i, j)
  }

  ghost predicate OpenSince(log: seq<Event>, i: int, j: int) {
    0 <= i < j <= |log| && log[i] == Started && forall k :: i < k < j ==> log[k] != Stopped
  }

  /** After a stop is requested, the handlers are called at most once before the next start. */
  ghost predicate OneRaiseAfterStop(log: seq<Event>) {
    forall i, j, k :: 0 <= i < j < k < |log| && log[i] == StopRequested && log[j] == Raised && log[k] == Raised
                      ==> StartedBetween(log, i, k)
  }

  ghost predicate StartedBetween(log: seq<Event>, i: int, k: int) {
    exists l :: 0 <= i < l < k <= |log| && log[l] == Started
  }

  /** No stop is requested, and none returns, while the handlers run. */
  ghost predicate HandlersDoneAtStop(log: seq<Event>) {
    forall k :: 0 <= k < |log| && (log[k] == StopRequested || log[k] == Stopped) ==> !InHandlers(log[..k])
  }

  /** The last `Raised` has no `Handled` yet. */
  predicate InHandlers(log: seq<Event>) {
    log != [] && var e := log[|log| - 1]; e == Raised || (e != Handled && InHandlers(log[..|log| - 1]))
  }

  // ---- The same, as a state to carry along ----

  predicate Open(log: seq<Event>) {
    log != [] && var e := log[|log| - 1]; e == Started || (e != Stopped && Open(log[..|log| - 1]))
  }

  predicate StopPending(log: seq<Event>) {
    log != [] && var e := log[|log| - 1]; e == StopRequested || (e != Started && StopPending(log[..|log| - 1]))
  }

  /** How often the handlers were called with a stop pending, since the last start. */
  function RaisesWhilePending(log: seq<Event>): nat {
    if log == [] then 0
    else
      var e, before := log[|log| - 1], log[..|log| - 1];
      if e == Started then 0
      else RaisesWhilePending(before) + if e == Raised && StopPending(before) then 1 else 0
  }

  lemma {:induction false} OpenMeans(log: seq<Event>)
    requires Open(log)
    ensures exists i :: OpenSince(log, i, |log|)
  {
    var k := |log| - 1;
    if log[k] == Started {
      assert OpenSince(log, k, |log|);
    } else {
      OpenMeans(log[..k]);
      var i :| OpenSince(log[..k], i, k);
      assert OpenSince(log, i, |log|);
    }
  }

  lemma StartedBetweenGrows(log: seq<Event>, i: int, k: int)
    requires 0 <= k <= |log|
    ensures StartedBetween(log[..k], i, k) ==> StartedBetween(log, i, |log|)
  {
    if StartedBetween(log[..k], i, k) {
      var l :| 0 <= i < l < k && log[..k][l] == Started;
      assert log[l] == Started;
    }
  }

  lemma {:induction false} PendingMeans(log: seq<Event>, i: int)
    requires 0 <= i < |log| && log[i] == StopRequested && !StartedBetween(log, i, |log|)
    ensures StopPending(log)
    ensures forall j :: i < j < |log| && log[j] == Raised ==> RaisesWhilePending(log) >= 1
  {
    var k := |log| - 1;
    if i == k {
    } else {
      assert log[k] != Started;
      StartedBetweenGrows(log, i, k);
      PendingMeans(log[..k], i);
      forall j | i < j < |log| && log[j] == Raised
        ensures RaisesWhilePending(log) >= 1
      {
        assert j < k ==> log[..k][j] == Raised;
      }
    }
  }

  // ---- What every step keeps ----

  /** The newest worker, the only one that can be alive. */
  function Current(s: State): Worker {
    if s.workers == [] then Exited else s.workers[|s.workers| - 1]
  }

  predicate OneWorker(s: State) {
    forall i :: 0 <= i < |s.workers| - 1 ==> s.workers[i] == Exited
  }

  predicate HoldsMutex(w: Worker) { w.Holding? || w.Decide? || w.Raising? || w.Releasing? }

  predicate MutexHeld(s: State) {
    && (s.mutex == ByController <==> s.controller == Locked || s.controller == Requested)
    && (s.mutex.ByWorker? <==> HoldsMutex(Current(s)))
    && (s.mutex.ByWorker? ==> s.mutex.id == |s.workers| - 1)
  }

  /** The flag, the controller and the worker agree on whether the timer is running. */
  predicate Phases(s: State) {
    match s.controller
    case Idle => s.needStop <==> Current(s) == Exited
    case Launching => !s.needStop && Current(s) == Exited
    case AwaitingLock => !s.needStop && Current(s) != Exited
    case Locked => !s.needStop && Current(s) != Exited
    case _ => s.needStop && s.workers != []
  }

  /** A worker that can still call the handlers before it looks at the flag. */
  predicate MayRaise(w: Worker) {
    w.Locking? || w.Holding? || w.Waiting? || w.Reacquire? || w.Decide?
  }

  predicate LogFollows(s: State) {
    && (Open(s.log) <==> !(s.controller == Idle && s.needStop))
    && (StopPending(s.log) ==> s.needStop)
    && (InHandlers(s.log) <==> Current(s) == Raising)
    && (!s.needStop ==> RaisesWhilePending(s.log) == 0)
    && RaisesWhilePending(s.log) + (if s.needStop && MayRaise(Current(s)) then 1 else 0) <= 1
  }

  predicate Consistent(s: State) { OneWorker(s) && MutexHeld(s) && Phases(s) && LogFollows(s) }

  /** Any worker that is not done is the newest. */
  lemma OnlyNewestActs(s: State, i: nat, w: Worker)
    requires OneWorker(s) && i < |s.workers| && s.workers[i] != Exited
    ensures i == |s.workers| - 1 && s.workers[i] == Current(s)
    ensures Current(Move(s, i, w)) == w && OneWorker(Move(s, i, w))
  {
  }

  lemma LogStep(log: seq<Event>, e: Event)
    ensures Open(log + [e]) <==> e == Started || (e != Stopped && Open(log))
    ensures StopPending(log + [e]) <==> e == StopRequested || (e != Started && StopPending(log))
    ensures InHandlers(log + [e]) <==> e == Raised || (e != Handled && InHandlers(log))
    ensures RaisesWhilePending(log + [e]) ==
            if e == Started then 0 else RaisesWhilePending(log) + if e == Raised && StopPending(log) then 1 else 0
  {
    assert (log + [e])[..|log|] == log;
  }

  lemma ControllerKeepsConsistent(s: State, step: Step)
    requires Consistent(s) && Enabled(s, step) && !ByWorkerThread(step)
    ensures Consistent(Apply(s, step))
  {
    hide LogFollows, OneWorker, MutexHeld, Phases;
    ControllerKeepsPlaces(s, step);
    ControllerKeepsLog(s, step);
  }

  lemma ControllerKeepsPlaces(s: State, step: Step)
    requires OneWorker(s) && MutexHeld(s) && Phases(s) && Enabled(s, step) && !ByWorkerThread(step)
    ensures OneWorker(Apply(s, step)) && MutexHeld(Apply(s, step)) && Phases(Apply(s, step))
  {
    hide SomeoneAt;
    if step.Notify? {
      OnlyNewestActs(s, step.woken, Reacquire(step.timeout));
    }
  }

  lemma ControllerKeepsLog(s: State, step: Step)
    requires OneWorker(s) && Phases(s) && LogFollows(s) && Enabled(s, step) && !ByWorkerThread(step)
    ensures LogFollows(Apply(s, step))
  {
    hide Open, StopPending, InHandlers, RaisesWhilePending, SomeoneAt;
    LogStep(s.log, Started);
    LogStep(s.log, StopRequested);
    LogStep(s.log, Stopped);
    if step.Notify? {
      OnlyNewestActs(s, step.woken, Reacquire(step.timeout));
    }
  }

  lemma WorkerKeepsConsistent(s: State, step: Step)
    requires Consistent(s) && Enabled(s, step) && ByWorkerThread(step)
    ensures Consistent(Apply(s, step))
  {
    hide LogFollows, OneWorker, MutexHeld, Phases;
    WorkerKeepsMutex(s, step);
    WorkerKeepsPhases(s, step);
    WorkerKeepsLog(s, step);
  }

  lemma WorkerKeepsLog(s: State, step: Step)
    requires OneWorker(s) && LogFollows(s) && Phases(s) && Enabled(s, step) && ByWorkerThread(step)
    ensures LogFollows(Apply(s, step))
  {
    hide Open, StopPending, InHandlers, RaisesWhilePending, OneWorker;
    LogStep(s.log, Raised);
    LogStep(s.log, Handled);
    OnlyNewestActs(s, step.id, Apply(s, step).workers[step.id]);
  }

  lemma WorkerKeepsMutex(s: State, step: Step)
    requires OneWorker(s) && MutexHeld(s) && Enabled(s, step) && ByWorkerThread(step)
    ensures OneWorker(Apply(s, step)) && MutexHeld(Apply(s, step))
  {
    OnlyNewestActs(s, step.id, Apply(s, step).workers[step.id]);
  }

  lemma WorkerKeepsPhases(s: State, step: Step)
    requires OneWorker(s) && Phases(s) && Enabled(s, step) && ByWorkerThread(step)
    ensures Phases(Apply(s, step))
  {
    OnlyNewestActs(s, step.id, Apply(s, step).workers[step.id]);
  }

  lemma {:induction false} RunsAreConsistent(steps: seq<Step>)
    requires Legal(steps)
    ensures Consistent(After(steps))
  {
    if steps == [] {
    } else {
      var k := |steps| - 1;
      RunsAreConsistent(steps[..k]);
      if ByWorkerThread(steps[k]) {
        WorkerKeepsConsistent(After(steps[..k]), steps[k]);
      } else {
        ControllerKeepsConsistent(After(steps[..k]), steps[k]);
      }
    }
  }

  // ---- What the steps of a run say by themselves ----

  /** The value last given to the setter. */
  predicate LastSet(steps: seq<Step>) {
    steps == [] || (var step := steps[|steps| - 1];
                    if step.SetEnabled? then step.value else LastSet(steps[..|steps| - 1]))
  }

  /** Whether no start was called since the flag was last set. */
  predicate Stopping(steps: seq<Step>) {
    steps == [] || (var step := steps[|steps| - 1];
                    step.RequestStop? || (!step.CallStart? && Stopping(steps[..|steps| - 1])))
  }

  predicate Acquires(step: Step) { step.LockToStop? || step.Lock? || step.LockAgain? }

  predicate Frees(step: Step) { step.UnlockToNotify? || step.BeginWait? || step.Unlock? }

  /** Who acquired the mutex last, and has not freed it since. */
  function HolderOf(steps: seq<Step>): Holder {
    if steps == [] then Free
    else
      var step := steps[|steps| - 1];
      if Acquires(step) then (if ByWorkerThread(step) then ByWorker(step.id) else ByController)
      else if Frees(step) then Free
      else HolderOf(steps[..|steps| - 1])
  }

  /** Whether a step ends a wait of worker `i`. */
  predicate EndsWait(step: Step, i: nat) {
    step == TimeOut(i) || step == Wake(i) || (step.Notify? && step.woken == i)
  }

  /** Whether the last wait of worker `i` ended in a timeout. */
  predicate TimedOut(steps: seq<Step>, i: nat) {
    steps != [] && (var step := steps[|steps| - 1];
                    if EndsWait(step, i) then step.TimeOut? || (step.Notify? && step.timeout)
                    else TimedOut(steps[..|steps| - 1], i))
  }

  function Launches(steps: seq<Step>): nat {
    if steps == [] then 0
    else Launches(steps[..|steps| - 1]) + if steps[|steps| - 1].Launch? then 1 else 0
  }

  /** What `step` reports, after the steps `before`. */
  function Reports(before: seq<Step>, step: Step): seq<Event> {
    match step
    case CallStart => if Stopping(before) then [Started] else []
    case RequestStop => [StopRequested]
    case Join => [Stopped]
    case RaiseOrNot(i) => if TimedOut(before, i) && LastSet(before) then [Raised] else []
    case ReturnFromHandlers(_) => [Handled]
    case _ => []
  }

  function LogOf(steps: seq<Step>): seq<Event> {
    if steps == [] then []
    else LogOf(steps[..|steps| - 1]) + Reports(steps[..|steps| - 1], steps[|steps| - 1])
  }

  /** In every run, flag, enabled, mutex, log and the outcome of each wait are what the steps say. */
  lemma {:induction false} StateFollowsSteps(steps: seq<Step>)
    requires Legal(steps)
    ensures var s := After(steps);
            && s.needStop == Stopping(steps) && s.enabled == LastSet(steps)
            && s.mutex == HolderOf(steps) && |s.workers| == Launches(steps)
            && s.log == LogOf(steps)
            && WaitsFollow(steps, s)
  {
    if steps == [] {
    } else {
      hide Apply, Enabled, WaitsFollow;
      var k := |steps| - 1;
      StateFollowsSteps(steps[..k]);
      var s := After(steps[..k]);
      FlagsFollow(steps[..k], s, steps[k]);
      MutexFollows(steps[..k], s, steps[k]);
      LaunchesFollow(steps[..k], s, steps[k]);
      LogFollowsSteps(steps[..k], s, steps[k]);
      WaitsStep(steps[..k], s, steps[k]);
      assert steps[..k] + [steps[k]] == steps;
    }
  }

  /** The outcome that a worker carries from its wait to its decision is that of its last wait. */
  predicate WaitsFollow(steps: seq<Step>, s: State) {
    forall i :: 0 <= i < |s.workers| ==> CarriesWait(s.workers[i], TimedOut(steps, i))
  }

  predicate CarriesWait(w: Worker, timedOut: bool) {
    (w.Reacquire? ==> w.timeout == timedOut) && (w.Decide? ==> w.timeout == timedOut)
  }

  lemma FlagsFollow(before: seq<Step>, s: State, step: Step)
    requires Enabled(s, step) && s.needStop == Stopping(before) && s.enabled == LastSet(before)
    ensures Apply(s, step).needStop == Stopping(before + [step])
    ensures Apply(s, step).enabled == LastSet(before + [step])
  {
    hide Enabled;
    assert (before + [step])[..|before|] == before;
  }

  lemma MutexFollows(before: seq<Step>, s: State, step: Step)
    requires Enabled(s, step) && s.mutex == HolderOf(before)
    ensures Apply(s, step).mutex == HolderOf(before + [step])
  {
    hide Enabled;
    assert (before + [step])[..|before|] == before;
  }

  lemma LaunchesFollow(before: seq<Step>, s: State, step: Step)
    requires Enabled(s, step) && |s.workers| == Launches(before)
    ensures |Apply(s, step).workers| == Launches(before + [step])
  {
    hide SomeoneAt;
    assert (before + [step])[..|before|] == before;
  }

  lemma LogFollowsSteps(before: seq<Step>, s: State, step: Step)
    requires Enabled(s, step) && s.needStop == Stopping(before) && s.enabled == LastSet(before)
    requires s.log == LogOf(before) && WaitsFollow(before, s)
    ensures Apply(s, step).log == LogOf(before + [step])
  {
    hide Stopping, LastSet, TimedOut, LogOf;
    LogOfOneMore(before, step);
    assert LogOf(before) + [] == LogOf(before);
    if step.RaiseOrNot? {
      var i := step.id;
      assert 0 <= i < |s.workers|;
      assert CarriesWait(s.workers[i], TimedOut(before, i));
      assert s.workers[i].timeout == TimedOut(before, i);
      assert Apply(s, step).log == s.log + Reports(before, step);
    } else {
      assert Apply(s, step).log == s.log + Reports(before, step);
    }
  }

  lemma WaitsStep(before: seq<Step>, s: State, step: Step)
    requires Enabled(s, step) && WaitsFollow(before, s)
    ensures WaitsFollow(before + [step], Apply(s, step))
  {
    hide TimedOut;
    forall i | 0 <= i < |Apply(s, step).workers|
      ensures CarriesWait(Apply(s, step).workers[i], TimedOut(before + [step], i))
    {
      TimedOutOneMore(before, step, i);
      assert i < |s.workers| ==> CarriesWait(s.workers[i], TimedOut(before, i));
    }
  }

  lemma TimedOutOneMore(before: seq<Step>, step: Step, i: nat)
    ensures TimedOut(before + [step], i)
         == if EndsWait(step, i) then step.TimeOut? || (step.Notify? && step.timeout) else TimedOut(before, i)
  {
    assert (before + [step])[..|before|] == before;
  }

  /** A worker's decision calls the handlers exactly when its last wait timed out and the timer was last
      set to be enabled, running or stopping. */
  lemma RaisesExactly(steps: seq<Step>, i: nat)
    requires Legal(steps + [RaiseOrNot(i)])
    ensures Legal(steps)
    ensures After(steps + [RaiseOrNot(i)]).log
            == After(steps).log + if TimedOut(steps, i) && LastSet(steps) then [Raised] else []
  {
    hide After, LogOf, TimedOut, LastSet;
    PrefixIsLegal(steps, RaiseOrNot(i));
    StateFollowsSteps(steps);
    StateFollowsSteps(steps + [RaiseOrNot(i)]);
    LogOfOneMore(steps, RaiseOrNot(i));
  }

  lemma PrefixIsLegal(steps: seq<Step>, step: Step)
    requires Legal(steps + [step])
    ensures Legal(steps) && Enabled(After(steps), step)
    ensures After(steps + [step]) == Apply(After(steps), step)
  {
    assert (steps + [step])[..|steps|] == steps;
  }

  lemma LogOfOneMore(steps: seq<Step>, step: Step)
    ensures LogOf(steps + [step]) == LogOf(steps) + Reports(steps, step)
  {
    assert (steps + [step])[..|steps|] == steps;
  }

  // ---- The order of each thread's steps ----

  /** The steps of worker `i`, the notification that ends its wait among them. */
  function StepsOf(steps: seq<Step>, i: nat): seq<Step> {
    if steps == [] then []
    else
      var step := steps[|steps| - 1];
      StepsOf(steps[..|steps| - 1], i)
      + if EndsWait(step, i) || (ByWorkerThread(step) && step.id == i) then [step] else []
  }

  /** The loop: test, lock, wait, lock again, decide, perhaps handle, unlock. */
  predicate Follows(prev: Step, next: Step) {
    match prev
    case TestFlag(_) => next.Lock?
    case Lock(_) => next.BeginWait?
    case BeginWait(_) => next.TimeOut? || next.Wake? || next.Notify?
    case TimeOut(_) => next.LockAgain?
    case Wake(_) => next.LockAgain?
    case Notify(_, _) => next.LockAgain?
    case LockAgain(_) => next.RaiseOrNot?
    case RaiseOrNot(_) => next.ReturnFromHandlers? || next.Unlock?
    case ReturnFromHandlers(_) => next.Unlock?
    case Unlock(_) => next.TestFlag?
    case _ => false
  }

  predicate InLoopOrder(own: seq<Step>) {
    (own != [] ==> own[0].TestFlag?) && forall k :: 0 < k < |own| ==> Follows(own[k - 1], own[k])
  }

  /** Where a worker is after its own steps. */
  predicate Fits(own: seq<Step>, w: Worker) {
    if own == [] then w == Test
    else
      match own[|own| - 1]
      case TestFlag(_) => w == Locking || w == Exited
      case Lock(_) => w == Holding
      case BeginWait(_) => w == Waiting
      case LockAgain(_) => w.Decide?
      case RaiseOrNot(_) => w == Raising || w == Releasing
      case ReturnFromHandlers(_) => w == Releasing
      case Unlock(_) => w == Test
      case TimeOut(_) => w.Reacquire?
      case Wake(_) => w.Reacquire?
      case Notify(_, _) => w.Reacquire?
      case _ => false
  }

  /** In every run, each worker goes through its loop in order, and stops only at the test. */
  lemma {:induction false} WorkersRunTheLoop(steps: seq<Step>, i: nat)
    requires Legal(steps)
    ensures InLoopOrder(StepsOf(steps, i))
    ensures i < |After(steps).workers| ==> Fits(StepsOf(steps, i), After(steps).workers[i])
    ensures i >= |After(steps).workers| ==> StepsOf(steps, i) == []
  {
    if steps == [] {
    } else {
      var k := |steps| - 1;
      WorkersRunTheLoop(steps[..k], i);
      LoopStep(StepsOf(steps[..k], i), After(steps[..k]), steps[k], i);
    }
  }

  lemma LoopStep(own: seq<Step>, s: State, step: Step, i: nat)
    requires Enabled(s, step) && InLoopOrder(own)
    requires if i < |s.workers| then Fits(own, s.workers[i]) else own == []
    ensures var t := Apply(s, step);
            var own' := own + if EndsWait(step, i) || (ByWorkerThread(step) && step.id == i) then [step] else [];
            && InLoopOrder(own')
            && if i < |t.workers| then Fits(own', t.workers[i]) else own' == []
  {
    hide Follows, InLoopOrder;
    if EndsWait(step, i) || (ByWorkerThread(step) && step.id == i) {
      LoopAppends(own, s, step, i);
    } else {
      assert own + [] == own;
    }
  }

  lemma LoopAppends(own: seq<Step>, s: State, step: Step, i: nat)
    requires Enabled(s, step) && InLoopOrder(own) && (EndsWait(step, i) || (ByWorkerThread(step) && step.id == i))
    requires if i < |s.workers| then Fits(own, s.workers[i]) else own == []
    ensures i < |s.workers| && InLoopOrder(own + [step])
    ensures own == [] ==> step.TestFlag?
  {
    hide InLoopOrder;
    assert own == [] ==> step.TestFlag?;
    assert own != [] ==> Follows(own[|own| - 1], step);
    OrderOneMore(own, step);
  }

  lemma OrderOneMore(own: seq<Step>, step: Step)
    requires InLoopOrder(own)
    requires if own == [] then step.TestFlag? else Follows(own[|own| - 1], step)
    ensures InLoopOrder(own + [step])
  {
    hide Follows;
  }

  /** Where the controlling thread is, by its last step. */
  function ControllerAt(steps: seq<Step>): Controller {
    if steps == [] then Idle
    else
      var before := steps[..|steps| - 1];
      match steps[|steps| - 1]
      case CallStart => if Stopping(before) then Launching else Idle
      case Launch => Idle
      case CallStop => if Stopping(before) then Idle else AwaitingLock
      case LockToStop => Locked
      case RequestStop => Requested
      case UnlockToNotify => Notifying
      case Notify(_, _) => Joining
      case NotifyNobody => Joining
      case Join => Idle
      case _ => ControllerAt(before)
  }

  lemma {:induction false} ControllerFollowsSteps(steps: seq<Step>)
    requires Legal(steps)
    ensures After(steps).controller == ControllerAt(steps)
  {
    if steps == [] {
    } else {
      hide Apply, Enabled, Stopping, ControllerAt;
      var k := |steps| - 1;
      ControllerFollowsSteps(steps[..k]);
      StateFollowsSteps(steps[..k]);
      ControllerStep(steps[..k], After(steps[..k]), steps[k]);
      assert steps[..k] + [steps[k]] == steps;
    }
  }

  lemma ControllerStep(before: seq<Step>, s: State, step: Step)
    requires Enabled(s, step) && s.controller == ControllerAt(before) && s.needStop == Stopping(before)
    ensures Apply(s, step).controller == ControllerAt(before + [step])
  {
    hide Stopping, SomeoneAt;
    assert (before + [step])[..|before|] == before;
  }

  /** Who is held up by whom: a thread by the mutex, while another thread holds it, and a stop by its
      worker. */
  predicate ControllerWaits(s: State) {
    (s.controller == AwaitingLock && s.mutex != Free) || (s.controller == Joining && Current(s) != Exited)
  }

  predicate WorkerWaits(s: State) { (Current(s) == Locking || Current(s).Reacquire?) && s.mutex != Free }

  /** Nothing else ever holds a thread up, and the holder of the mutex is not held up at all. */
  lemma NobodyStuck(steps: seq<Step>)
    requires Legal(steps)
    ensures var s := After(steps);
            && (s.controller == Idle ==> Enabled(s, CallStart) && Enabled(s, CallStop)
                                         && forall b :: Enabled(s, SetEnabled(b)))
            && (s.controller != Idle && !ControllerWaits(s) ==>
                  exists step :: !ByWorkerThread(step) && !step.SetEnabled? && Enabled(s, step))
            && (Current(s) != Exited && !WorkerWaits(s) ==> exists step :: ByWorkerThread(step) && Enabled(s, step))
            && (Current(s) == Waiting ==> Enabled(s, TimeOut(|s.workers| - 1)) && Enabled(s, Wake(|s.workers| - 1)))
            && (s.mutex == ByController ==> s.controller != Idle && !ControllerWaits(s))
            && (s.mutex.ByWorker? ==> s.mutex.id == |s.workers| - 1 && Current(s) != Exited && !WorkerWaits(s))
  {
    RunsAreConsistent(steps);
    var s := After(steps);
    hide After, Legal, Enabled, Consistent;
    CallsAreOpen(s);
    if s.controller != Idle && !ControllerWaits(s) {
      ControllerCanMove(s);
    }
    if Current(s) != Exited && !WorkerWaits(s) {
      WorkerCanMove(s);
    }
    HolderMoves(s);
  }

  lemma CallsAreOpen(s: State)
    requires Consistent(s)
    ensures s.controller == Idle ==> Enabled(s, CallStart) && Enabled(s, CallStop)
                                     && forall b :: Enabled(s, SetEnabled(b))
    ensures Current(s) == Waiting ==> Enabled(s, TimeOut(|s.workers| - 1)) && Enabled(s, Wake(|s.workers| - 1))
  {
    hide LogFollows;
  }

  lemma HolderMoves(s: State)
    requires Consistent(s)
    ensures s.mutex == ByController ==> s.controller != Idle && !ControllerWaits(s)
    ensures s.mutex.ByWorker? ==> s.mutex.id == |s.workers| - 1 && Current(s) != Exited && !WorkerWaits(s)
  {
    hide LogFollows;
  }

  lemma WorkerCanMove(s: State)
    requires Consistent(s) && Current(s) != Exited && !WorkerWaits(s)
    ensures exists step :: ByWorkerThread(step) && Enabled(s, step)
  {
    hide LogFollows;
    var step := NextStep(Current(s), |s.workers| - 1, true);
    assert ByWorkerThread(step) && Enabled(s, step);
  }

  lemma ControllerCanMove(s: State)
    requires Consistent(s) && s.controller != Idle && !ControllerWaits(s)
    ensures exists step :: !ByWorkerThread(step) && !step.SetEnabled? && Enabled(s, step)
  {
    hide LogFollows;
    var step :=
      match s.controller
      case Idle => CallStart
      case Launching => Launch
      case AwaitingLock => LockToStop
      case Locked => RequestStop
      case Requested => UnlockToNotify
      case Notifying => if Current(s) == Waiting then Notify(|s.workers| - 1, false) else NotifyNobody
      case Joining => Join;
    assert Enabled(s, step);
  }

  // ---- The guarantees ----

  /** In every run at most one worker is alive. */
  lemma AtMostOneWorkerAlive(steps: seq<Step>, i: nat, j: nat)
    requires Legal(steps) && i < |After(steps).workers| && j < |After(steps).workers|
    requires After(steps).workers[i] != Exited && After(steps).workers[j] != Exited
    ensures i == j
  {
    hide Legal, LogFollows, After, Phases, MutexHeld;
    RunsAreConsistent(steps);
  }

  /** No two threads are inside the mutex. */
  lemma MutexExcludes(steps: seq<Step>, i: nat)
    requires Legal(steps) && i < |After(steps).workers| && HoldsMutex(After(steps).workers[i])
    ensures After(steps).controller != Locked && After(steps).controller != Requested
    ensures forall j :: 0 <= j < |After(steps).workers| && HoldsMutex(After(steps).workers[j]) ==> i == j
  {
    hide Legal, LogFollows, After;
    RunsAreConsistent(steps);
  }

  ghost predicate GoodLog(log: seq<Event>) {
    RaisesEnclosed(log) && OneRaiseAfterStop(log) && HandlersDoneAtStop(log)
  }

  lemma GoodLogStep(s: State, e: Event)
    requires Consistent(s) && GoodLog(s.log)
    requires e == Raised ==> Current(s).Decide?
    requires e == StopRequested || e == Stopped ==> Current(s) != Raising
    ensures GoodLog(s.log + [e])
  {
    var log, n := s.log, |s.log|;
    var log' := log + [e];
    assert forall k :: 0 <= k <= n ==> log'[..k] == log[..k];
    forall j | 0 <= j < |log'| && log'[j] == Raised
      ensures exists i :: OpenSince(log', i, j)
    {
      if j == n {
        OpenMeans(log);
        var i :| OpenSince(log, i, n);
        assert OpenSince(log', i, n);
      } else {
        var i :| OpenSince(log, i, j);
        assert OpenSince(log', i, j);
      }
    }
    forall i, j, k | 0 <= i < j < k < |log'| && log'[i] == StopRequested && log'[j] == Raised && log'[k] == Raised
      ensures StartedBetween(log', i, k)
    {
      if k == n {
        if !StartedBetween(log, i, n) {
          PendingMeans(log, i);
        }
        var l :| 0 <= i < l < n && log[l] == Started;
        assert log'[l] == Started;
      } else {
        assert StartedBetween(log, i, k);
        var l :| 0 <= i < l < k && log[l] == Started;
        assert log'[l] == Started;
      }
    }
  }

  /** In every run: handlers run only between a start and the return of its stop; at most one call
      comes after a stop is requested, lost notifications included; and none is in progress when a
      stop is requested or returns. */
  lemma {:induction false} RunsLogWell(steps: seq<Step>)
    requires Legal(steps)
    ensures GoodLog(After(steps).log)
  {
    hide GoodLog, Consistent;
    if steps == [] {
      EmptyLogIsGood();
    } else {
      var k := |steps| - 1;
      RunsLogWell(steps[..k]);
      RunsAreConsistent(steps[..k]);
      StepLogsWell(After(steps[..k]), steps[k]);
    }
  }

  lemma EmptyLogIsGood()
    ensures GoodLog([])
  {
  }

  lemma StepLogsWell(s: State, step: Step)
    requires Consistent(s) && GoodLog(s.log) && Enabled(s, step)
    ensures GoodLog(Apply(s, step).log)
  {
    hide GoodLog, LogFollows;
    match step
    case CallStart => if s.needStop { GoodLogStep(s, Started); }
    case RequestStop => GoodLogStep(s, StopRequested);
    case Join => GoodLogStep(s, Stopped);
    case RaiseOrNot(i) =>
      OnlyNewestActs(s, i, Raising);
      if s.workers[i].timeout && s.enabled { GoodLogStep(s, Raised); }
    case ReturnFromHandlers(i) => GoodLogStep(s, Handled);
    case _ =>
  }

  /** How many steps a worker is away from its end once the flag is set. */
  function StepsLeft(w: Worker): nat {
    match w
    case Locking => 8
    case Holding => 7
    case Waiting => 6
    case Reacquire(_) => 5
    case Decide(_) => 4
    case Raising => 3
    case Releasing => 2
    case Test => 1
    case Exited => 0
  }

  lemma JoinerIsNotStuck(s: State)
    requires Consistent(s) && s.controller == Joining
    ensures Enabled(s, Join) || exists step :: ByWorkerThread(step) && Enabled(s, step)
  {
    hide LogFollows;
    if Current(s) == Exited {
      assert Enabled(s, Join);
    } else {
      var step := NextStep(Current(s), |s.workers| - 1, true);
      assert ByWorkerThread(step) && Enabled(s, step);
    }
  }

  /** What worker `i` does next, letting its wait end as given. */
  function NextStep(w: Worker, i: nat, timeout: bool): Step
    requires w != Exited
  {
    match w
    case Test => TestFlag(i)
    case Locking => Lock(i)
    case Holding => BeginWait(i)
    case Waiting => if timeout then TimeOut(i) else Wake(i)
    case Reacquire(_) => LockAgain(i)
    case Decide(_) => RaiseOrNot(i)
    case Raising => ReturnFromHandlers(i)
    case Releasing => Unlock(i)
  }

  lemma WorkerGetsCloser(s: State, step: Step)
    requires OneWorker(s) && s.needStop && ByWorkerThread(step) && Enabled(s, step)
    ensures StepsLeft(Current(Apply(s, step))) < StepsLeft(Current(s))
    ensures Apply(s, step).controller == s.controller && Apply(s, step).needStop
  {
    OnlyNewestActs(s, step.id, Apply(s, step).workers[step.id]);
  }

  function WorkerSteps(steps: seq<Step>): nat {
    if steps == [] then 0
    else WorkerSteps(steps[..|steps| - 1]) + if ByWorkerThread(steps[|steps| - 1]) then 1 else 0
  }

  lemma OnlyWorkersGoOn(s: State, step: Step)
    requires s.controller == Joining && Enabled(s, step) && step != Join && !ByWorkerThread(step)
    ensures step.SetEnabled?
    ensures Apply(s, step).controller == Joining && Apply(s, step).workers == s.workers
  {
  }

  /** A stop that waits for its worker returns after at most eight steps of the worker, whatever happens
      in between, and until then one of the two can go on. */
  lemma {:induction false} StopAlwaysReturns(steps: seq<Step>, more: seq<Step>)
    requires Legal(steps) && After(steps).controller == Joining
    requires Legal(steps + more) && Join !in more
    ensures var s := After(steps + more);
            && s.controller == Joining
            && StepsLeft(Current(s)) + WorkerSteps(more) <= StepsLeft(Current(After(steps))) <= 8
            && (Enabled(s, Join) || exists step :: ByWorkerThread(step) && Enabled(s, step))
  {
    hide Apply, Enabled, OneWorker, MutexHeld, LogFollows, ByWorkerThread, Current;
    RunsAreConsistent(steps + more);
    if more == [] {
      assert steps + more == steps;
    } else {
      var k := |more| - 1;
      assert (steps + more)[..|steps + more| - 1] == steps + more[..k];
      var s, step := After(steps + more[..k]), more[k];
      StopAlwaysReturns(steps, more[..k]);
      RunsAreConsistent(steps + more[..k]);
      if ByWorkerThread(step) {
        WorkerGetsCloser(s, step);
      } else {
        OnlyWorkersGoOn(s, step);
        assert Current(Apply(s, step)) == Current(s) by { SameWorkers(Apply(s, step), s); }
      }
    }
    JoinerIsNotStuck(After(steps + more));
  }

  lemma SameWorkers(s: State, t: State)
    requires s.workers == t.workers
    ensures Current(s) == Current(t)
  {
  }
}

/** When a timer calls its handlers: after a stop, while it runs, and once it is disabled. */
module TimerRaises {
  import opened Timers

  // ---- When the handlers can be called after a stop ----

  /** A worker that can come to call the handlers before it looks at the flag. */
  predicate RaiseAhead(w: Worker) {
    w == Locking || w == Holding || w == Waiting || w == Reacquire(true) || w == Decide(true)
  }

  /** Disabled, or stopping with nothing on its way. */
  predicate Silent(s: State) { !s.enabled || (s.needStop && !RaiseAhead(Current(s))) }

  /** A continuation that neither starts the timer nor sets whether it is enabled. */
  ghost predicate Continues(steps: seq<Step>, more: seq<Step>) {
    Legal(steps + more) && forall k :: 0 <= k < |more| ==> !more[k].CallStart? && !more[k].SetEnabled?
  }

  /** The handlers are called after the first `n` events. */
  ghost predicate RaisedSince(log: seq<Event>, n: nat) {
    exists j :: n <= j < |log| && log[j] == Raised
  }

  /** The same, after a stop that is requested after the first `n` events. */
  ghost predicate RaisedAfterRequest(log: seq<Event>, n: nat) {
    exists i :: n <= i < |log| && log[i] == StopRequested && RaisedSince(log, i)
  }

  lemma SilentStep(s: State, step: Step)
    requires Consistent(s) && Silent(s) && Enabled(s, step) && !step.CallStart? && !step.SetEnabled?
    ensures Silent(Apply(s, step))
    ensures Apply(s, step).log == s.log
            || (|Apply(s, step).log| == |s.log| + 1 && Apply(s, step).log[..|s.log|] == s.log
                && Apply(s, step).log[|s.log|] != Raised)
  {
    hide LogFollows, MutexHeld, SomeoneAt;
    if ByWorkerThread(step) {
      OnlyNewestActs(s, step.id, Apply(s, step).workers[step.id]);
    } else if step.Notify? {
      OnlyNewestActs(s, step.woken, Reacquire(step.timeout));
    }
  }

  lemma {:induction false} SilentRun(steps: seq<Step>, more: seq<Step>)
    requires Legal(steps) && Silent(After(steps)) && Continues(steps, more)
    ensures Silent(After(steps + more))
    ensures !RaisedSince(After(steps + more).log, |After(steps).log|)
  {
    hide Silent, Apply, Enabled, Consistent;
    if more == [] {
      assert steps + more == steps;
    } else {
      var k := |more| - 1;
      assert (steps + more)[..|steps + more| - 1] == steps + more[..k];
      SilentRun(steps, more[..k]);
      RunsAreConsistent(steps + more[..k]);
      SilentStep(After(steps + more[..k]), more[k]);
    }
  }

  predicate OnlyWorker(more: seq<Step>) { forall k :: 0 <= k < |more| ==> ByWorkerThread(more[k]) }

  lemma ContinuesWith(steps: seq<Step>, step: Step, more: seq<Step>)
    requires Legal(steps) && Continues(steps + [step], more) && !step.CallStart? && !step.SetEnabled?
    ensures Continues(steps, [step] + more) && steps + ([step] + more) == steps + [step] + more
  {
    assert steps + ([step] + more) == steps + [step] + more;
  }

  lemma TowardsRaise(s: State, step: Step)
    requires Consistent(s) && s.enabled && RaiseAhead(Current(s)) && s.mutex != ByController
    requires step == NextStep(Current(s), |s.workers| - 1, true)
    ensures Enabled(s, step) && ByWorkerThread(step)
    ensures var t := Apply(s, step);
            if Current(s) == Decide(true) then t.log == s.log + [Raised]
            else
              && t.enabled && RaiseAhead(Current(t)) && t.mutex != ByController
              && t.log == s.log && StepsLeft(Current(t)) < StepsLeft(Current(s))
  {
    hide LogFollows;
    OnlyNewestActs(s, |s.workers| - 1, Apply(s, step).workers[|s.workers| - 1]);
  }

  /** With the mutex out of the controller's hands, the worker goes straight on to the handlers. */
  lemma {:induction false} RaiseReached(steps: seq<Step>) returns (more: seq<Step>)
    requires Legal(steps)
    requires var s := After(steps);
             s.enabled && RaiseAhead(Current(s)) && s.mutex != ByController
    ensures Continues(steps, more) && OnlyWorker(more) && After(steps + more).log == After(steps).log + [Raised]
    decreases StepsLeft(Current(After(steps)))
  {
    hide Legal, After, Continues, Consistent, Apply, Enabled;
    var s := After(steps);
    RunsAreConsistent(steps);
    var step := NextStep(Current(s), |s.workers| - 1, true);
    TowardsRaise(s, step);
    OneMore(steps, step);
    if Current(s) == Decide(true) {
      NothingMore(steps + [step]);
      more := [];
    } else {
      more := RaiseReached(steps + [step]);
    }
    ContinuesWith(steps, step, more);
    more := [step] + more;
  }

  lemma NothingMore(steps: seq<Step>)
    requires Legal(steps)
    ensures Continues(steps, []) && steps + [] == steps
  {
    assert steps + [] == steps;
  }

  /** Once a stop is requested, the handlers can still be called if and only if the timer is enabled and
      its worker is past the flag and not woken without a timeout. */
  lemma RaiseFollowsExactly(steps: seq<Step>)
    requires Legal(steps) && After(steps).needStop
    ensures var s := After(steps);
            && ((exists more :: Continues(steps, more) && RaisedSince(After(steps + more).log, |s.log|))
                <==> s.enabled && RaiseAhead(Current(s)))
            && (s.controller == Requested ==>
                  (RaiseAhead(Current(s)) <==> Current(s) in {Locking, Waiting, Reacquire(true)}))
  {
    hide Legal, After, Continues, LogFollows, RaisedSince, Apply;
    var s := After(steps);
    RunsAreConsistent(steps);
    if s.enabled && RaiseAhead(Current(s)) {
      var more := RaiseAfterRequest(steps);
      LastIsRaised(s.log);
    } else {
      forall more | Continues(steps, more)
        ensures Legal(steps + more) && !RaisedSince(After(steps + more).log, |s.log|)
      {
        ContinuesLegal(steps, more);
        SilentRun(steps, more);
      }
    }
  }

  lemma LastIsRaised(log: seq<Event>)
    ensures RaisedSince(log + [Raised], |log|)
  {
    assert (log + [Raised])[|log|] == Raised;
  }

  lemma RaiseAfterRequest(steps: seq<Step>) returns (more: seq<Step>)
    requires Legal(steps)
    requires var s := After(steps); s.enabled && s.needStop && RaiseAhead(Current(s))
    ensures Continues(steps, more) && After(steps + more).log == After(steps).log + [Raised]
  {
    hide Legal, After, Continues, LogFollows;
    RunsAreConsistent(steps);
    if After(steps).mutex == ByController {
      OneMore(steps, UnlockToNotify);
      more := RaiseReached(steps + [UnlockToNotify]);
      ContinuesWith(steps, UnlockToNotify, more);
      more := [UnlockToNotify] + more;
    } else {
      more := RaiseReached(steps);
    }
  }

  /** How many steps a running worker is away from being past the flag again. */
  function ToLocking(w: Worker): nat {
    match w
    case Holding => 7
    case Waiting => 6
    case Reacquire(_) => 5
    case Decide(_) => 4
    case Raising => 3
    case Releasing => 2
    case Test => 1
    case _ => 0
  }

  lemma TowardsLocking(s: State, step: Step)
    requires Consistent(s) && s.controller == Idle && !s.needStop && Current(s) != Locking && Current(s) != Exited
    requires step == NextStep(Current(s), |s.workers| - 1, false)
    ensures Enabled(s, step) && ByWorkerThread(step)
    ensures var t := Apply(s, step);
            && t.controller == Idle && !t.needStop && t.enabled == s.enabled && |t.log| >= |s.log|
            && ToLocking(Current(t)) < ToLocking(Current(s))
  {
    hide LogFollows;
    OnlyNewestActs(s, |s.workers| - 1, Apply(s, step).workers[|s.workers| - 1]);
  }

  /** From any point of a running worker, it comes to be just past the test of the flag. */
  lemma {:induction false} LockingReached(steps: seq<Step>) returns (more: seq<Step>)
    requires Legal(steps) && After(steps).controller == Idle && !After(steps).needStop
    ensures Continues(steps, more) && OnlyWorker(more)
    ensures var s, t := After(steps), After(steps + more);
            && t.controller == Idle && !t.needStop && t.enabled == s.enabled && Current(t) == Locking
            && |t.log| >= |s.log|
    decreases ToLocking(Current(After(steps)))
  {
    hide Legal, After, Continues, Apply, Enabled, LogFollows;
    var s := After(steps);
    RunsAreConsistent(steps);
    if Current(s) == Locking {
      NothingMore(steps);
      more := [];
    } else {
      var step := NextStep(Current(s), |s.workers| - 1, false);
      TowardsLocking(s, step);
      OneMore(steps, step);
      more := LockingReached(steps + [step]);
      ContinuesWith(steps, step, more);
      more := [step] + more;
    }
  }

  /** A stop can come just then. */
  lemma RequestReached(steps: seq<Step>) returns (more: seq<Step>)
    requires Legal(steps) && After(steps).controller == Idle && !After(steps).needStop
    ensures Continues(steps, more)
    ensures var s, t := After(steps), After(steps + more);
            && t.needStop && t.enabled == s.enabled && Current(t) == Locking
            && |t.log| > |s.log| && t.log[|t.log| - 1] == StopRequested
  {
    hide Legal, After, Continues;
    var first := LockingReached(steps);
    ContinuesLegal(steps, first);
    var second := RequestStopNow(steps + first);
    ContinuesThrough(steps, first, second);
    more := first + second;
  }

  lemma RequestStopNow(steps: seq<Step>) returns (more: seq<Step>)
    requires Legal(steps)
    requires var s := After(steps); s.controller == Idle && !s.needStop && Current(s) == Locking
    ensures Continues(steps, more)
    ensures After(steps + more) ==
            After(steps).(needStop := true, mutex := ByController, controller := Requested,
                          log := After(steps).log + [StopRequested])
  {
    hide Legal, After, Continues, LogFollows, SomeoneAt;
    RunsAreConsistent(steps);
    OneMore(steps, CallStop);
    OneMore(steps + [CallStop], LockToStop);
    OneMore(steps + [CallStop] + [LockToStop], RequestStop);
    NothingMore(steps + [CallStop] + [LockToStop] + [RequestStop]);
    ContinuesWith(steps + [CallStop] + [LockToStop], RequestStop, []);
    ContinuesWith(steps + [CallStop], LockToStop, [RequestStop] + []);
    ContinuesWith(steps, CallStop, [LockToStop] + ([RequestStop] + []));
    more := [CallStop] + ([LockToStop] + ([RequestStop] + []));
  }

  /** What a caller can rely on: between its calls, with the timer running, the handlers can be called
      after the stop it is about to make if and only if the timer is enabled. */
  lemma StopIsQuietExactly(steps: seq<Step>)
    requires Legal(steps) && After(steps).controller == Idle && !After(steps).needStop
    ensures (exists more :: Continues(steps, more)
                            && RaisedAfterRequest(After(steps + more).log, |After(steps).log|))
            <==> After(steps).enabled
  {
    hide Legal, After, Continues, RaisedSince, RaisedAfterRequest, Current, RaiseAhead;
    var s := After(steps);
    if s.enabled {
      var more := RaiseAfterStop(steps);
    } else {
      forall more | Continues(steps, more)
        ensures Legal(steps + more) && !RaisedAfterRequest(After(steps + more).log, |s.log|)
      {
        ContinuesLegal(steps, more);
        SilentRun(steps, more);
        NoRaiseAfterRequest(After(steps + more).log, |s.log|);
      }
    }
  }

  /** A running timer left to itself comes to call its handlers if and only if it is enabled. */
  lemma FiresExactly(steps: seq<Step>)
    requires Legal(steps) && After(steps).controller == Idle && !After(steps).needStop
    ensures (exists more :: Continues(steps, more) && OnlyWorker(more)
                            && RaisedSince(After(steps + more).log, |After(steps).log|))
            <==> After(steps).enabled
  {
    hide Legal, After, Continues, OnlyWorker, RaisedSince, Current, RaiseAhead;
    var s := After(steps);
    if s.enabled {
      var more := RaiseWhileRunning(steps);
    } else {
      forall more | Continues(steps, more)
        ensures Legal(steps + more) && !RaisedSince(After(steps + more).log, |s.log|)
      {
        ContinuesLegal(steps, more);
        SilentRun(steps, more);
      }
    }
  }

  lemma RaiseWhileRunning(steps: seq<Step>) returns (more: seq<Step>)
    requires Legal(steps) && After(steps).controller == Idle && !After(steps).needStop && After(steps).enabled
    ensures Continues(steps, more) && OnlyWorker(more)
    ensures RaisedSince(After(steps + more).log, |After(steps).log|)
  {
    hide Legal, After, Continues, RaisedSince;
    var first := LockingReached(steps);
    ContinuesLegal(steps, first);
    IdleHoldsNothing(steps + first);
    var second := RaiseReached(steps + first);
    ContinuesThrough(steps, first, second);
    more := first + second;
    RaisedLater(After(steps + first).log, |After(steps).log|);
  }

  lemma IdleHoldsNothing(steps: seq<Step>)
    requires Legal(steps) && After(steps).controller == Idle
    ensures After(steps).mutex != ByController
  {
    hide Legal, After, LogFollows;
    RunsAreConsistent(steps);
  }

  lemma RaisedLater(log: seq<Event>, n: nat)
    requires n <= |log|
    ensures RaisedSince(log + [Raised], n)
  {
    assert (log + [Raised])[|log|] == Raised;
  }

  /** Once disabled, a timer calls no handler until it is enabled again, however often it is started. */
  lemma {:induction false} DisablingSilences(steps: seq<Step>, more: seq<Step>)
    requires Legal(steps + [SetEnabled(false)] + more)
    requires forall k :: 0 <= k < |more| ==> !more[k].SetEnabled?
    ensures Legal(steps + [SetEnabled(false)])
    ensures !After(steps + [SetEnabled(false)] + more).enabled
    ensures !RaisedSince(After(steps + [SetEnabled(false)] + more).log, |After(steps + [SetEnabled(false)]).log|)
  {
    var start := steps + [SetEnabled(false)];
    if more == [] {
      assert start + more == start;
      PrefixIsLegal(steps, SetEnabled(false));
    } else {
      hide Apply, Enabled;
      var k := |more| - 1;
      assert (start + more)[..|start + more| - 1] == start + more[..k];
      assert start + more == start + more[..k] + [more[k]];
      PrefixIsLegal(start + more[..k], more[k]);
      DisablingSilences(steps, more[..k]);
      DisabledStep(After(start + more[..k]), more[k]);
    }
  }

  lemma DisabledStep(s: State, step: Step)
    requires !s.enabled && Enabled(s, step) && !step.SetEnabled?
    ensures !Apply(s, step).enabled
    ensures Apply(s, step).log == s.log
            || (|Apply(s, step).log| == |s.log| + 1 && Apply(s, step).log[..|s.log|] == s.log
                && Apply(s, step).log[|s.log|] != Raised)
  {
  }

  lemma NoRaiseAfterRequest(log: seq<Event>, n: nat)
    requires !RaisedSince(log, n)
    ensures !RaisedAfterRequest(log, n)
  {
  }

  lemma RaiseAfterStop(steps: seq<Step>) returns (more: seq<Step>)
    requires Legal(steps) && After(steps).controller == Idle && !After(steps).needStop && After(steps).enabled
    ensures Continues(steps, more) && RaisedAfterRequest(After(steps + more).log, |After(steps).log|)
  {
    hide Legal, After, Continues, RaisedAfterRequest;
    var first := RequestReached(steps);
    ContinuesLegal(steps, first);
    var second := RaiseAfterRequest(steps + first);
    ContinuesThrough(steps, first, second);
    more := first + second;
    RequestThenRaise(After(steps + first).log, |After(steps).log|);
  }

  lemma ContinuesLegal(steps: seq<Step>, more: seq<Step>)
    requires Continues(steps, more)
    ensures Legal(steps + more)
  {
  }

  lemma ContinuesThrough(steps: seq<Step>, first: seq<Step>, second: seq<Step>)
    requires Continues(steps, first) && Continues(steps + first, second)
    ensures Continues(steps, first + second) && steps + (first + second) == steps + first + second
  {
    assert steps + (first + second) == steps + first + second;
  }

  lemma RequestThenRaise(log: seq<Event>, n: nat)
    requires n < |log| && log[|log| - 1] == StopRequested
    ensures RaisedAfterRequest(log + [Raised], n)
  {
    var log', i := log + [Raised], |log| - 1;
    assert log'[i + 1] == Raised && log'[i] == StopRequested;
    assert RaisedSince(log', i);
  }

  lemma Then(steps: seq<Step>, step: Step) returns (more: seq<Step>)
    requires Legal(steps) && Enabled(After(steps), step)
    ensures Legal(more) && After(more) == Apply(After(steps), step)
  {
    OneMore(steps, step);
    more := steps + [step];
  }

  /** The bound is reached: the notification is lost between the loop's test and the wait, and the
      handlers run once after the stop was requested. */
  lemma OneRaiseCanFollowStop() returns (steps: seq<Step>)
    ensures Legal(steps)
    ensures After(steps).log == [Started, StopRequested, Raised, Handled, Stopped]
  {
    hide Legal, After;
    steps := RaisedUnstopped();
    steps := Then(steps, ReturnFromHandlers(0));
    steps := Then(steps, Unlock(0));
    steps := Then(steps, TestFlag(0));
    steps := Then(steps, Join);
  }

  lemma RaisedUnstopped() returns (steps: seq<Step>)
    ensures Legal(steps)
    ensures After(steps) == State(true, true, ByWorker(0), Joining, [Raising], [Started, StopRequested, Raised])
  {
    hide Legal, After;
    steps := StoppedUnnoticed();
    steps := Then(steps, Lock(0));
    steps := Then(steps, BeginWait(0));
    steps := Then(steps, TimeOut(0));
    steps := Then(steps, LockAgain(0));
    steps := Then(steps, RaiseOrNot(0));
  }

  lemma StoppedUnnoticed() returns (steps: seq<Step>)
    ensures Legal(steps)
    ensures After(steps) == State(true, true, Free, Joining, [Locking], [Started, StopRequested])
  {
    hide Legal, After;
    EmptyRun();
    steps := [];
    steps := Then(steps, CallStart);
    steps := Then(steps, Launch);
    steps := Then(steps, TestFlag(0));
    steps := Then(steps, CallStop);
    steps := Then(steps, LockToStop);
    steps := Then(steps, RequestStop);
    steps := Then(steps, UnlockToNotify);
    steps := Then(steps, NotifyNobody);
  }

  lemma EmptyRun()
    ensures Legal([]) && After([]) == INITIAL
  {
  }
}

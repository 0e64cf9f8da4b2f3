/** A stopwatch over a clock whose readings arrive as arguments. */
module Stopwatches {
  import opened MachineWords

  /** The three fields. */
  datatype Watch = Watch(elapsed: int64, startTimeStamp: int64, isRunning: bool)

  datatype Op = Start | Stop | Reset | Restart

  /** An operation and the clock's reading during it. */
  datatype Event = Event(op: Op, at: int64)

  const ZERO := Watch(0, 0, false)

  function Apply(w: Watch, e: Event): Watch {
    match e.op
    case Start => if w.isRunning then w else w.(startTimeStamp := e.at, isRunning := true)
    case Stop =>
      if !w.isRunning then w
      else
        var elapsed := S64(w.elapsed + S64(e.at - w.startTimeStamp));
        w.(elapsed := if elapsed < 0 then 0 else elapsed, isRunning := false)
    case Reset => ZERO
    case Restart => Watch(0, e.at, true)
  }

  function RawElapsedTicks(w: Watch, now: int64): int64 {
    if w.isRunning then S64(w.elapsed + S64(now - w.startTimeStamp)) else w.elapsed
  }

  class StopwatchImpl {
    var elapsed: int64
    var startTimeStamp: int64
    var isRunning: bool
    ghost var history: seq<Event>

    ghost function View(): Watch
      reads this
    {
      Watch(elapsed, startTimeStamp, isRunning)
    }

    /** The fields are what the operations so far have made of them. */
    ghost predicate Valid()
      reads this
    {
      View() == After(history)
    }

    constructor ()
      ensures Valid() && history == [] && View() == ZERO
    {
      elapsed, startTimeStamp, isRunning, history := 0, 0, false, [];
    }

    method DoStart(now: int64)
      requires Valid()
      modifies this
      ensures Valid() && history == old(history) + [Event(Start, now)]
      ensures View() == Apply(old(View()), Event(Start, now))
    {
      hide After;
      OneMore(history, Event(Start, now));
      history := history + [Event(Start, now)];
      if !isRunning {
        startTimeStamp := now;
        isRunning := true;
      }
    }

    method DoStop(now: int64)
      requires Valid()
      modifies this
      ensures Valid() && history == old(history) + [Event(Stop, now)]
      ensures View() == Apply(old(View()), Event(Stop, now))
    {
      hide After;
      OneMore(history, Event(Stop, now));
      history := history + [Event(Stop, now)];
      if isRunning {
        var elapsedThisPeriod := S64(now - startTimeStamp);
        elapsed := S64(elapsed + elapsedThisPeriod);
        isRunning := false;
        if elapsed < 0 {
          elapsed := 0;
        }
      }
    }

    /** The clock is not read: `at` only dates the operation. */
    method DoReset(ghost at: int64)
      requires Valid()
      modifies this
      ensures Valid() && history == old(history) + [Event(Reset, at)]
      ensures View() == ZERO
    {
      hide After;
      OneMore(history, Event(Reset, at));
      history := history + [Event(Reset, at)];
      elapsed := 0;
      isRunning := false;
      startTimeStamp := 0;
    }

    method DoRestart(now: int64)
      requires Valid()
      modifies this
      ensures Valid() && history == old(history) + [Event(Restart, now)]
      ensures View() == Apply(old(View()), Event(Restart, now))
    {
      hide After;
      OneMore(history, Event(Restart, now));
      history := history + [Event(Restart, now)];
      elapsed := 0;
      startTimeStamp := now;
      isRunning := true;
    }

    /** On a clock that goes forward: how many of its instants, since the last reset or restart, found
        the watch running.
     */
    method GetRawElapsedTicks(now: int64) returns (ticks: int64)
      requires Valid()
      ensures ticks == RawElapsedTicks(View(), now)
      ensures ClockForward(history, now) && now >= 0 ==>
                ticks == InstantsRunning(history, LastReset(history), now)
    {
      hide InstantsRunning, After, LastReset;
      if ClockForward(history, now) && now >= 0 {
        ElapsedCountsInstants(history, now);
      }
      ticks := elapsed;
      if isRunning {
        var elapsedUntilNow := S64(now - startTimeStamp);
        ticks := S64(ticks + elapsedUntilNow);
      }
    }
  }

  // ---- Whole runs ----

  function After(h: seq<Event>): Watch {
    if h == [] then ZERO else Apply(After(h[..|h| - 1]), h[|h| - 1])
  }

  lemma OneMore(h: seq<Event>, e: Event)
    ensures After(h + [e]) == Apply(After(h), e)
  {
    assert (h + [e])[..|h|] == h;
  }

  /** Whether the last operation leaves the watch running. */
  predicate Running(h: seq<Event>) {
    h != [] && (h[|h| - 1].op == Start || h[|h| - 1].op == Restart)
  }

  /** Clock time spent running, up to `now`, since the last reset or restart. */
  function TimeRunning(h: seq<Event>, now: int): int {
    if h == [] then 0
    else
      var e := h[|h| - 1];
      var before := if e.op == Reset || e.op == Restart then 0 else TimeRunning(h[..|h| - 1], e.at);
      before + if Running(h) then now - e.at else 0
  }

  /** The clock starts at or after zero and never goes back. */
  predicate ClockForward(h: seq<Event>, now: int) {
    && (forall i :: 0 <= i < |h| ==> 0 <= h[i].at <= now)
    && (forall i, j :: 0 <= i < j < |h| ==> h[i].at <= h[j].at)
  }

  lemma ClockBefore(h: seq<Event>, now: int)
    requires h != [] && ClockForward(h, now)
    ensures ClockForward(h[..|h| - 1], h[|h| - 1].at) && 0 <= h[|h| - 1].at <= now
  {
  }

  lemma {:induction false} WatchKeepsTime(h: seq<Event>, now: int64)
    requires ClockForward(h, now) && now >= 0
    ensures var w := After(h);
            && w.isRunning == Running(h)
            && 0 <= w.elapsed <= now && 0 <= w.startTimeStamp <= now
            && 0 <= TimeRunning(h, now) <= now
            && (w.isRunning ==> w.elapsed <= w.startTimeStamp
                                && TimeRunning(h, now) == w.elapsed + (now - w.startTimeStamp))
            && (!w.isRunning ==> TimeRunning(h, now) == w.elapsed)
  {
    hide S64, ClockForward;
    if h == [] {
    } else {
      var k := |h| - 1;
      ClockBefore(h, now);
      WatchKeepsTime(h[..k], h[k].at);
    }
  }

  /** In every run against a clock that goes forward, the ticks read are the time spent running. */
  lemma ElapsedIsTimeRunning(h: seq<Event>, now: int64)
    requires ClockForward(h, now) && now >= 0
    ensures RawElapsedTicks(After(h), now) == TimeRunning(h, now)
    ensures 0 <= TimeRunning(h, now) <= now
  {
    WatchKeepsTime(h, now);
  }

  // ---- The same, instant by instant ----

  /** Whether the watch runs at instant `x`: whether the last operation until then left it running. */
  predicate RunningAt(h: seq<Event>, x: int) {
    h != [] && if h[|h| - 1].at <= x then Running(h) else RunningAt(h[..|h| - 1], x)
  }

  /** When the watch was last reset or restarted. */
  function LastReset(h: seq<Event>): int {
    if h == [] then 0
    else
      var e := h[|h| - 1];
      if e.op == Reset || e.op == Restart then e.at else LastReset(h[..|h| - 1])
  }

  /** How many instants in [lo, hi) find the watch running. */
  function InstantsRunning(h: seq<Event>, lo: int, hi: int): nat
    decreases hi - lo
  {
    if hi <= lo then 0 else InstantsRunning(h, lo, hi - 1) + (if RunningAt(h, hi - 1) then 1 else 0)
  }

  lemma {:induction false} InstantsSplit(h: seq<Event>, lo: int, mid: int, hi: int)
    requires lo <= mid <= hi
    ensures InstantsRunning(h, lo, hi) == InstantsRunning(h, lo, mid) + InstantsRunning(h, mid, hi)
    decreases hi - mid
  {
    if mid == hi {
    } else {
      InstantsSplit(h, lo, mid, hi - 1);
    }
  }

  /** The last operation does not change the past. */
  lemma {:induction false} InstantsBefore(h: seq<Event>, lo: int, hi: int)
    requires h != [] && hi <= h[|h| - 1].at
    ensures InstantsRunning(h, lo, hi) == InstantsRunning(h[..|h| - 1], lo, hi)
    decreases hi - lo
  {
    if hi <= lo {
    } else {
      InstantsBefore(h, lo, hi - 1);
    }
  }

  lemma {:induction false} InstantsSince(h: seq<Event>, lo: int, hi: int)
    requires h != [] && h[|h| - 1].at <= lo <= hi
    ensures InstantsRunning(h, lo, hi) == (if Running(h) then hi - lo else 0)
    decreases hi - lo
  {
    if hi <= lo {
    } else {
      InstantsSince(h, lo, hi - 1);
    }
  }

  lemma {:induction false} NeverStarted(lo: int, hi: int)
    ensures InstantsRunning([], lo, hi) == 0
    decreases hi - lo
  {
    if hi <= lo {
    } else {
      NeverStarted(lo, hi - 1);
    }
  }

  lemma {:induction false} TimeRunningIsInstants(h: seq<Event>, now: int)
    requires ClockForward(h, now) && 0 <= now
    ensures 0 <= LastReset(h) <= now
    ensures TimeRunning(h, now) == InstantsRunning(h, LastReset(h), now)
  {
    if h == [] {
      NeverStarted(0, now);
    } else {
      var k := |h| - 1;
      var e := h[k];
      TimeRunningIsInstants(h[..k], e.at);
      InstantsSplit(h, LastReset(h), e.at, now);
      InstantsBefore(h, LastReset(h), e.at);
      InstantsSince(h, e.at, now);
    }
  }

  /** In every run the reading is the number of clock instants, since the last reset or restart, that
      found the watch running. */
  lemma ElapsedCountsInstants(h: seq<Event>, now: int64)
    requires ClockForward(h, now) && now >= 0
    ensures RawElapsedTicks(After(h), now) == InstantsRunning(h, LastReset(h), now)
  {
    hide After, RawElapsedTicks, InstantsRunning, TimeRunning;
    ElapsedIsTimeRunning(h, now);
    TimeRunningIsInstants(h, now);
  }

  /** Starting, stopping and waiting never lower the reading. */
  lemma {:induction false} ElapsedNeverDecreases(h: seq<Event>, g: seq<Event>, then_: int64, now: int64)
    requires ClockForward(h + g, now) && 0 <= then_ <= now && ClockForward(h, then_)
    requires forall i :: 0 <= i < |g| ==> then_ <= g[i].at && (g[i].op == Start || g[i].op == Stop)
    ensures RawElapsedTicks(After(h), then_) <= RawElapsedTicks(After(h + g), now)
  {
    hide After, RawElapsedTicks;
    TimeNeverDecreases(h, g, then_, now);
    ElapsedIsTimeRunning(h, then_);
    ElapsedIsTimeRunning(h + g, now);
  }

  lemma {:induction false} TimeNeverDecreases(h: seq<Event>, g: seq<Event>, then_: int, now: int)
    requires ClockForward(h + g, now) && then_ <= now
    requires forall i :: 0 <= i < |g| ==> then_ <= g[i].at && (g[i].op == Start || g[i].op == Stop)
    ensures TimeRunning(h, then_) <= TimeRunning(h + g, now)
  {
    if g == [] {
      assert h + g == h;
    } else {
      var k := |g| - 1;
      assert (h + g)[..|h + g| - 1] == h + g[..k];
      assert (h + g)[|h| + k] == g[k];
      assert forall i :: 0 <= i < |h| + k ==> (h + g[..k])[i] == (h + g)[i];
      TimeNeverDecreases(h, g[..k], then_, g[k].at);
    }
  }

  /** On any clock, what each operation makes of the reading before it: a stop freezes the reading, at zero
      if it was negative, and a start goes on from it. */
  lemma ReadingAfter(h: seq<Event>, e: Event, now: int64)
    ensures var before, w := After(h), After(h + [e]);
            match e.op
            case Start =>
              if before.isRunning then w == before
              else w.isRunning && RawElapsedTicks(w, now) == S64(RawElapsedTicks(before, e.at) + S64(now - e.at))
            case Stop =>
              if !before.isRunning then w == before
              else
                var frozen := RawElapsedTicks(before, e.at);
                !w.isRunning && RawElapsedTicks(w, now) == if frozen < 0 then 0 else frozen
            case Reset => !w.isRunning && RawElapsedTicks(w, now) == 0
            case Restart => w.isRunning && RawElapsedTicks(w, now) == S64(now - e.at)
  {
    hide After;
    OneMore(h, e);
  }

  /** Whatever the clock does, backward steps and wrap-around included, what a stop stores is not negative. */
  lemma {:induction false} ElapsedNeverNegative(h: seq<Event>)
    ensures After(h).elapsed >= 0
  {
    if h == [] {
    } else {
      ElapsedNeverNegative(h[..|h| - 1]);
    }
  }
}

/** A queue shared by any number of threads: a monitor whose condition variable is signalled only
    when an element arrives in an empty queue. Every access happens under the mutex, so each
    critical section is one step; `wait` ends one and leaving it begins another.
 */
module ConcurrentQueues {

  datatype Thread = Thread(id: int)

  /** The queue, the consumers blocked in `wait`, those released from it that have not got the
      mutex back yet, and everything `Dequeue` has returned, to whom, in order. */
  datatype State<T> = State(queue: seq<T>, waiting: set<Thread>, woken: set<Thread>, returned: seq<(Thread, T)>)

  datatype Option<+T> = None | Some(value: T)

  datatype Step<T> =
    | Enqueue(val: T, notified: Option<Thread>)  // the whole call; `notify_one` picks a waiter
    | Enter(consumer: Thread)                    // `Dequeue` up to its return or its first `wait`
    | SpuriousWakeup(consumer: Thread)
    | Resume(consumer: Thread)                   // out of `wait`, up to the return or the next `wait`

  function Empty<T>(): State<T> { State([], {}, {}, []) }

  /** When a step can happen, with `consumers` the threads that may call `Dequeue`. */
  predicate Enabled<T>(consumers: set<Thread>, s: State<T>, step: Step<T>) {
    match step
    case Enqueue(_, notified) =>
      if s.queue == [] && s.waiting != {} then notified.Some? && notified.value in s.waiting else notified == None
    case Enter(c) => c in consumers && c !in s.waiting && c !in s.woken
    case SpuriousWakeup(c) => c in s.waiting
    case Resume(c) => c in s.woken
  }

  /** The test of the wait loop, and what follows either outcome. */
  function TakeOrWait<T>(s: State<T>, c: Thread): State<T> {
    if s.queue == [] then s.(waiting := s.waiting + {c}, woken := s.woken - {c})
    else s.(queue := s.queue[1..], woken := s.woken - {c}, returned := s.returned + [(c, s.queue[0])])
  }

  function Apply<T>(s: State<T>, step: Step<T>): State<T> {
    match step
    case Enqueue(v, notified) =>
      var w := if notified.Some? then {notified.value} else {};
      s.(queue := s.queue + [v], waiting := s.waiting - w, woken := s.woken + w)
    case Enter(c) => TakeOrWait(s, c)
    case SpuriousWakeup(c) => s.(waiting := s.waiting - {c}, woken := s.woken + {c})
    case Resume(c) => TakeOrWait(s, c)
  }

  // ---- The class, one method a critical section ----

  class ConcurrentQueue<T> {
    var queue: seq<T>
    var waiting: set<Thread>
    var woken: set<Thread>
    ghost var returned: seq<(Thread, T)>
    ghost const consumers: set<Thread>
    ghost var history: seq<Step<T>>

    ghost function View(): State<T>
      reads this
    {
      State(queue, waiting, woken, returned)
    }

    /** The fields are what a run of steps has made of them. */
    ghost predicate Valid()
      reads this
    {
      Legal(consumers, history) && View() == After(history)
    }

    constructor (ghost consumers: set<Thread>)
      ensures Valid() && this.consumers == consumers && history == [] && View() == Empty()
    {
      this.consumers := consumers;
      queue, waiting, woken, returned, history := [], {}, {}, [], [];
    }

    /** `pick` is the waiter that `notify_one` would choose. */
    method Enqueue(val: T, pick: Thread) returns (notified: Option<Thread>)
      requires Valid()
      requires waiting != {} ==> pick in waiting
      modifies this
      ensures Valid() && history == old(history) + [Step.Enqueue(val, notified)]
      ensures View() == Apply(old(View()), Step.Enqueue(val, notified))
      ensures Sent(history) == old(Sent(history)) + [val]
    {
      hide After, Legal;
      var canNotify := queue == [];
      queue := queue + [val];
      notified := None;
      if canNotify && waiting != {} {
        waiting, woken := waiting - {pick}, woken + {pick};
        notified := Some(pick);
      }
      OneMore(consumers, history, Step.Enqueue(val, notified));
      history := history + [Step.Enqueue(val, notified)];
    }

    /** The critical section of `Dequeue`: `None` is a return to `wait`, and a value is the first one sent
        that no call has returned yet.
     */
    method TryDequeue(consumer: Thread) returns (retval: Option<T>)
      requires Valid()
      requires consumer in consumers && consumer !in waiting
      modifies this
      ensures Valid() && Sent(history) == old(Sent(history))
      ensures View() == TakeOrWait(old(View()), consumer)
      ensures retval == if |Sent(history)| <= |old(returned)| then None else Some(Sent(history)[|old(returned)|])
      ensures returned == old(returned) + if retval.Some? then [(consumer, retval.value)] else []
      ensures retval.None? <==> consumer in waiting
      ensures consumer !in woken
    {
      hide After, Legal;
      FirstInFirstOut(consumers, history);
      NextSent(After(history), Sent(history));
      ghost var step := if consumer in woken then Resume(consumer) else Enter(consumer);
      OneMore(consumers, history, step);
      history := history + [step];
      woken := woken - {consumer};
      if queue == [] {
        waiting := waiting + {consumer};
        return None;
      }
      retval := Some(queue[0]);
      returned := returned + [(consumer, queue[0])];
      queue := queue[1..];
    }

    method SpuriousWakeup(consumer: Thread)
      requires Valid()
      requires consumer in waiting
      modifies this
      ensures Valid() && Sent(history) == old(Sent(history))
      ensures View() == Apply(old(View()), Step.SpuriousWakeup(consumer))
    {
      hide After, Legal;
      OneMore(consumers, history, Step.SpuriousWakeup(consumer));
      history := history + [Step.SpuriousWakeup(consumer)];
      waiting, woken := waiting - {consumer}, woken + {consumer};
    }
  }

  // ---- Whole runs ----

  function After<T>(steps: seq<Step<T>>): State<T> {
    if steps == [] then Empty() else Apply(After(steps[..|steps| - 1]), steps[|steps| - 1])
  }

  predicate Legal<T>(consumers: set<Thread>, steps: seq<Step<T>>) {
    steps == []
    || (var k := |steps| - 1; Legal(consumers, steps[..k]) && Enabled(consumers, After(steps[..k]), steps[k]))
  }

  /** The values given to `Enqueue`, in order. */
  function Sent<T>(steps: seq<Step<T>>): seq<T> {
    if steps == [] then []
    else
      var k := |steps| - 1;
      Sent(steps[..k]) + (if steps[k].Enqueue? then [steps[k].val] else [])
  }

  lemma OneMore<T>(consumers: set<Thread>, steps: seq<Step<T>>, step: Step<T>)
    ensures After(steps + [step]) == Apply(After(steps), step)
    ensures Legal(consumers, steps + [step]) <==> Legal(consumers, steps) && Enabled(consumers, After(steps), step)
    ensures Sent(steps + [step]) == Sent(steps) + if step.Enqueue? then [step.val] else []
  {
    assert (steps + [step])[..|steps|] == steps;
  }

  function Values<T>(returned: seq<(Thread, T)>): (vs: seq<T>)
    ensures |vs| == |returned|
  {
    seq(|returned|, i requires 0 <= i < |returned| => returned[i].1)
  }

  /** In every run, with any number of threads, what was sent is what was returned and then what is
      still queued: first in first out, nothing lost, nothing twice. */
  lemma {:induction false} FirstInFirstOut<T>(consumers: set<Thread>, steps: seq<Step<T>>)
    requires Legal(consumers, steps)
    ensures Sent(steps) == Values(After(steps).returned) + After(steps).queue
  {
    if steps == [] {
    } else {
      var k := |steps| - 1;
      FirstInFirstOut(consumers, steps[..k]);
      var s, step := After(steps[..k]), steps[k];
      if step.Enter? || step.Resume? {
        TakeConserves(s, step.consumer);
      } else if step.Enqueue? {
        assert Values(s.returned) + (s.queue + [step.val]) == Values(s.returned) + s.queue + [step.val];
      }
    }
  }

  lemma TakeConserves<T>(s: State<T>, c: Thread)
    ensures var s' := TakeOrWait(s, c); Values(s'.returned) + s'.queue == Values(s.returned) + s.queue
  {
    if s.queue != [] {
      var s' := TakeOrWait(s, c);
      assert Values(s'.returned) == Values(s.returned) + [s.queue[0]];
      assert s.queue == [s.queue[0]] + s.queue[1..];
    }
  }

  /** The front of the queue is the first value sent that has not been returned. */
  lemma NextSent<T>(s: State<T>, sent: seq<T>)
    requires sent == Values(s.returned) + s.queue
    ensures s.queue == [] <==> |s.returned| == |sent|
    ensures s.queue != [] ==> |s.returned| < |sent| && sent[|s.returned|] == s.queue[0]
  {
  }

  /** The `k`th value returned, by whichever consumer, is the `k`th value sent. */
  lemma KthReturnedIsKthSent<T>(consumers: set<Thread>, steps: seq<Step<T>>, k: nat)
    requires Legal(consumers, steps) && k < |After(steps).returned|
    ensures k < |Sent(steps)| && After(steps).returned[k].1 == Sent(steps)[k]
  {
    FirstInFirstOut(consumers, steps);
    var s := After(steps);
    assert (Values(s.returned) + s.queue)[k] == Values(s.returned)[k];
  }

  // ---- Where each consumer is ----

  /** Whether a step is one of `c`'s own passes of the wait loop. */
  predicate Passes<T>(step: Step<T>, c: Thread) { step == Enter(c) || step == Resume(c) }

  /** Whether a step releases `c`. */
  predicate Releases<T>(step: Step<T>, c: Thread) {
    step == SpuriousWakeup(c) || (step.Enqueue? && step.notified == Some(c))
  }

  /** Whether the last step that concerns `c` is a release. */
  predicate Released<T>(steps: seq<Step<T>>, c: Thread) {
    steps != [] && (var k := |steps| - 1;
                    Releases(steps[k], c) || (!Passes(steps[k], c) && Released(steps[..k], c)))
  }

  /** Whether it is a pass that found nothing: all that was sent before had been returned. */
  predicate Asleep<T>(steps: seq<Step<T>>, c: Thread) {
    steps != []
    && (var k := |steps| - 1;
        if Passes(steps[k], c) then |Sent(steps[..k])| == |After(steps[..k]).returned|
        else !Releases(steps[k], c) && Asleep(steps[..k], c))
  }

  /** How often `c` has called `Dequeue`. */
  function Calls<T>(steps: seq<Step<T>>, c: Thread): nat {
    if steps == [] then 0
    else
      var k := |steps| - 1;
      Calls(steps[..k], c) + if steps[k] == Enter(c) then 1 else 0
  }

  /** How many values were returned to `c`. */
  function ReturnedTo<T>(returned: seq<(Thread, T)>, c: Thread): nat {
    if returned == [] then 0
    else
      var k := |returned| - 1;
      ReturnedTo(returned[..k], c) + if returned[k].0 == c then 1 else 0
  }

  lemma ReturnedOneMore<T>(returned: seq<(Thread, T)>, r: (Thread, T), c: Thread)
    ensures ReturnedTo(returned + [r], c) == ReturnedTo(returned, c) + if r.0 == c then 1 else 0
  {
    assert (returned + [r])[..|returned|] == returned;
  }

  /** In every run, a consumer sleeps exactly since a pass that found nothing, and is on its way out of
      `wait` exactly since a notification or a spurious wakeup. */
  lemma {:induction false} PlacesFollowSteps<T>(consumers: set<Thread>, steps: seq<Step<T>>, c: Thread)
    requires Legal(consumers, steps)
    ensures c in After(steps).waiting <==> Asleep(steps, c)
    ensures c in After(steps).woken <==> Released(steps, c)
  {
    if steps == [] {
    } else {
      var k := |steps| - 1;
      PlacesFollowSteps(consumers, steps[..k], c);
      AlwaysPlaced(consumers, steps[..k]);
      FirstInFirstOut(consumers, steps[..k]);
      NextSent(After(steps[..k]), Sent(steps[..k]));
    }
  }

  /** Every call of `Dequeue` returns exactly one value, once it returns: until then its consumer is asleep
      or on its way out of `wait`. */
  lemma {:induction false} EveryCallReturnsOnce<T>(consumers: set<Thread>, steps: seq<Step<T>>, c: Thread)
    requires Legal(consumers, steps)
    ensures var s := After(steps);
            Calls(steps, c) == ReturnedTo(s.returned, c) + if c in s.waiting || c in s.woken then 1 else 0
  {
    if steps == [] {
    } else {
      var k := |steps| - 1;
      EveryCallReturnsOnce(consumers, steps[..k], c);
      AlwaysPlaced(consumers, steps[..k]);
      var s := After(steps[..k]);
      if (steps[k].Enter? || steps[k].Resume?) && s.queue != [] {
        ReturnedOneMore(s.returned, (steps[k].consumer, s.queue[0]), c);
      }
    }
  }

  /** No consumer is ever stuck between calls or on its way out of `wait`: it has exactly one kind of step
      to take, and only a sleeping one waits for another thread. */
  lemma OneStepEach<T>(consumers: set<Thread>, steps: seq<Step<T>>, c: Thread)
    requires Legal(consumers, steps) && c in consumers
    ensures var s := After(steps);
            && (Enabled(consumers, s, Step<T>.Enter(c)) <==> !Asleep(steps, c) && !Released(steps, c))
            && (Enabled(consumers, s, Step<T>.SpuriousWakeup(c)) <==> Asleep(steps, c))
            && (Enabled(consumers, s, Step<T>.Resume(c)) <==> Released(steps, c))
            && !(Asleep(steps, c) && Released(steps, c))
  {
    hide Asleep, Released, After, Legal;
    PlacesFollowSteps(consumers, steps, c);
    AlwaysPlaced(consumers, steps);
  }

  // ---- Wakeups ----

  /** No consumer sleeps unnotified beside an element: what one consumer needs. */
  predicate SleepsOnlyOnEmpty<T>(s: State<T>) { s.waiting != {} ==> s.queue == [] }

  /** While consumers sleep unnotified, each element has a released consumer on its way to it: no wakeup
      is lost, with any number of consumers. */
  predicate Covered<T>(s: State<T>) { s.waiting != {} ==> |s.queue| <= |s.woken| }

  predicate AtMostOne(consumers: set<Thread>) {
    forall c, d :: c in consumers && d in consumers ==> c == d
  }

  /** A consumer is in one place, and only consumers are in any. */
  predicate Placed<T>(consumers: set<Thread>, s: State<T>) {
    s.waiting <= consumers && s.woken <= consumers && s.waiting !! s.woken
  }

  lemma {:induction false} AlwaysPlaced<T>(consumers: set<Thread>, steps: seq<Step<T>>)
    requires Legal(consumers, steps)
    ensures Placed(consumers, After(steps))
  {
    if steps == [] {
    } else {
      AlwaysPlaced(consumers, steps[..|steps| - 1]);
    }
  }

  lemma {:induction false} OneConsumerNeverOversleeps<T>(consumers: set<Thread>, steps: seq<Step<T>>)
    requires AtMostOne(consumers) && Legal(consumers, steps)
    ensures SleepsOnlyOnEmpty(After(steps))
  {
    if steps == [] {
    } else {
      var k := |steps| - 1;
      OneConsumerNeverOversleeps(consumers, steps[..k]);
      AlwaysPlaced(consumers, steps[..k]);
      if steps[k].Enqueue? && steps[k].notified.Some? {
        OnlyMember(consumers, After(steps[..k]).waiting, steps[k].notified.value);
      }
    }
  }

  lemma OnlyMember(consumers: set<Thread>, s: set<Thread>, w: Thread)
    requires AtMostOne(consumers) && s <= consumers && w in s
    ensures s == {w}
  {
  }

  /** With one consumer, an element in the queue always finds it outside `Dequeue` or on its way
      out of `wait`, with a step that returns the front. */
  lemma OneConsumerProgress<T>(consumers: set<Thread>, steps: seq<Step<T>>, c: Thread)
    requires AtMostOne(consumers) && c in consumers && Legal(consumers, steps)
    requires After(steps).queue != []
    ensures var s := After(steps);
            exists step :: Enabled(consumers, s, step) && (step == Enter(c) || step == Resume(c))
                           && Apply(s, step).returned == s.returned + [(c, s.queue[0])]
  {
    OneConsumerNeverOversleeps(consumers, steps);
    var s := After(steps);
    var step := if c in s.woken then Resume(c) else Enter(c);
    assert Enabled(consumers, s, step);
    assert Apply(s, step).returned == s.returned + [(c, s.queue[0])];
  }

  /** Two sleepers, two elements, one notification: the second element leaves a sleeper behind. */
  function TwoSleepers<T>(c: Thread, d: Thread, v: T): seq<Step<T>> {
    [Enter(c), Enter(d), Enqueue(v, Some(c)), Enqueue(v, None), Resume(c)]
  }

  lemma TwoSleepersOversleep<T>(consumers: set<Thread>, c: Thread, d: Thread, v: T)
    requires c in consumers && d in consumers && c != d
    ensures Legal(consumers, TwoSleepers(c, d, v))
    ensures After(TwoSleepers(c, d, v)) == State([v], {d}, {}, [(c, v)])
  {
    var none: seq<Step<T>> := [];
    OneMore(consumers, none, Enter(c));
    OneMore(consumers, none + [Enter(c)], Enter(d));
    OneMore(consumers, none + [Enter(c)] + [Enter(d)], Enqueue(v, Some(c)));
    OneMore(consumers, none + [Enter(c)] + [Enter(d)] + [Enqueue(v, Some(c))], Enqueue(v, None));
    OneMore(consumers, none + [Enter(c)] + [Enter(d)] + [Enqueue(v, Some(c))] + [Enqueue(v, None)], Resume(c));
    assert TwoSleepers(c, d, v)
        == none + [Enter(c)] + [Enter(d)] + [Enqueue(v, Some(c))] + [Enqueue(v, None)] + [Resume(c)];
  }

  /** The one step that loses a wakeup: a value sent to sleepers while the queue was not empty and every
      released consumer already had an element to fetch. */
  predicate Uncovers<T>(s: State<T>, step: Step<T>) {
    step.Enqueue? && s.queue != [] && s.waiting != {} && |s.woken| == |s.queue|
  }

  lemma UncoveredExactly<T>(consumers: set<Thread>, s: State<T>, step: Step<T>)
    requires Covered(s) && Enabled(consumers, s, step)
    ensures Covered(Apply(s, step)) <==> !Uncovers(s, step)
  {
    match step
    case Enqueue(_, notified) =>
      if notified.Some? {
        NotifyingCovers(s, step.val, notified.value);
      }
    case Enter(c) => TakingCovers(s, c);
    case SpuriousWakeup(c) => Grows(s.woken, c);
    case Resume(c) => TakingCovers(s, c);
  }

  lemma TakingCovers<T>(s: State<T>, c: Thread)
    requires Covered(s)
    ensures Covered(TakeOrWait(s, c))
  {
    if c in s.woken {
      Shrinks(s.woken, c);
    } else {
      assert s.woken - {c} == s.woken;
    }
  }

  lemma Shrinks(s: set<Thread>, c: Thread)
    requires c in s
    ensures |s - {c}| == |s| - 1
  {
  }

  lemma Grows(s: set<Thread>, c: Thread)
    ensures |s| <= |s + {c}| && 1 <= |s + {c}|
    ensures c !in s ==> |s + {c}| == |s| + 1
  {
    if c in s {
      assert s + {c} == s;
    }
  }

  /** A notification sent there would have kept it. */
  lemma NotifyingCovers<T>(s: State<T>, v: T, c: Thread)
    requires Covered(s) && c in s.waiting && (s.queue == [] || c !in s.woken)
    ensures Covered(Apply(s, Enqueue(v, Some(c))))
  {
    Grows(s.woken, c);
  }

  lemma {:induction false} StepOfRun<T>(consumers: set<Thread>, steps: seq<Step<T>>, k: nat)
    requires Legal(consumers, steps) && k < |steps|
    ensures Enabled(consumers, After(steps[..k]), steps[k])
    ensures After(steps[..k + 1]) == Apply(After(steps[..k]), steps[k])
  {
    var m := |steps| - 1;
    assert steps[..|steps|] == steps;
    if k == m {
    } else {
      assert steps[..m][..k] == steps[..k] && steps[..m][..k + 1] == steps[..k + 1];
      StepOfRun(consumers, steps[..m], k);
    }
  }

  lemma {:induction false} CoveredUpTo<T>(consumers: set<Thread>, steps: seq<Step<T>>, k: nat)
    requires Legal(consumers, steps) && k <= |steps|
    requires forall i :: 0 <= i < |steps| ==> !Uncovers(After(steps[..i]), steps[i])
    ensures Covered(After(steps[..k]))
  {
    if k == 0 {
    } else {
      CoveredUpTo(consumers, steps, k - 1);
      StepOfRun(consumers, steps, k - 1);
      UncoveredExactly(consumers, After(steps[..k - 1]), steps[k - 1]);
    }
  }

  /** A run stays covered throughout exactly when no step of it is such a step. */
  lemma CoveredThroughout<T>(consumers: set<Thread>, steps: seq<Step<T>>)
    requires Legal(consumers, steps)
    ensures (forall k :: 0 <= k <= |steps| ==> Covered(After(steps[..k])))
            <==> (forall k :: 0 <= k < |steps| ==> !Uncovers(After(steps[..k]), steps[k]))
  {
    hide After, Legal, Covered, Uncovers, Enabled;
    if forall k :: 0 <= k < |steps| ==> !Uncovers(After(steps[..k]), steps[k]) {
      forall k | 0 <= k <= |steps|
        ensures Covered(After(steps[..k]))
      {
        CoveredUpTo(consumers, steps, k);
      }
    }
    if forall k :: 0 <= k <= |steps| ==> Covered(After(steps[..k])) {
      forall k | 0 <= k < |steps|
        ensures !Uncovers(After(steps[..k]), steps[k])
      {
        StepOfRun(consumers, steps, k);
        assert Covered(After(steps[..k])) && Covered(After(steps[..k + 1]));
        UncoveredExactly(consumers, After(steps[..k]), steps[k]);
      }
    }
  }

  /** Notifying on empty loses no wakeup in any run exactly when there is at most one consumer. */
  lemma WakeupsReachOneConsumerOnly<T(!new)>(consumers: set<Thread>, v: T)
    ensures (forall steps: seq<Step<T>> :: Legal(consumers, steps) ==> Covered(After(steps)))
            <==> AtMostOne(consumers)
  {
    if AtMostOne(consumers) {
      forall steps: seq<Step<T>> | Legal(consumers, steps)
        ensures Covered(After(steps))
      {
        OneConsumerNeverOversleeps(consumers, steps);
      }
    } else {
      var c, d :| c in consumers && d in consumers && c != d;
      TwoSleepersOversleep(consumers, c, d, v);
    }
  }
}

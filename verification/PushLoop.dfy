/**
  The push loop that the EnvoyFilter controller and the route cache share: events wait in a channel
  and a debouncer, a callback consumes at least one of them, and a failed callback re-queues itself
  up to three times.
 */
module PushLoop {

  const MAX_RETRIES := 3

  /** Events that wait, in the channel or the debouncer, and the retry counter. */
  datatype Loop = Loop(pending: nat, retries: nat)
  {
    predicate Valid() { retries <= MAX_RETRIES && (retries > 0 ==> pending > 0) }

    /** How many callbacks can still run if nothing new happens. */
    function Budget(): int { 4 * pending - retries }
  }

  function Notified(l: Loop): Loop {
    l.(pending := l.pending + 1)
  }

  function CalledBack(l: Loop, consumed: nat, failed: bool): Loop
    requires 1 <= consumed <= l.pending
  {
    var left := l.pending - consumed;
    if failed && l.retries < MAX_RETRIES then Loop(left + 1, l.retries + 1) else Loop(left, 0)
  }

  class MainLoop {
    var pending: nat
    var retries: nat

    ghost function Abstract(): Loop reads this { Loop(pending, retries) }

    constructor ()
      ensures Abstract() == Loop(0, 0)
    {
      pending, retries := 0, 0;
    }

    method ConfigUpdated()
      modifies this
      ensures Abstract() == Notified(old(Abstract()))
    {
      pending := pending + 1;
    }

    /** The debouncer's callback, after it has absorbed `consumed` events; `err` is what the work
        returned. */
    method Callback(consumed: nat, err: bool)
      requires 1 <= consumed <= pending
      modifies this
      ensures Abstract() == CalledBack(old(Abstract()), consumed, err)
    {
      pending := pending - consumed;
      if err {
        if retries >= MAX_RETRIES {
          retries := 0;
          return;
        }
        retries := retries + 1;
        ConfigUpdated();
        return;
      }
      retries := 0;
    }
  }

  datatype Step = Event | Callback(consumed: nat, failed: bool)

  predicate Enabled(l: Loop, step: Step) {
    step.Callback? ==> 1 <= step.consumed <= l.pending
  }

  function After(l: Loop, step: Step): Loop
    requires Enabled(l, step)
  {
    match step
    case Event => Notified(l)
    case Callback(consumed, failed) => CalledBack(l, consumed, failed)
  }

  predicate Runs(l: Loop, steps: seq<Step>)
    decreases |steps|
  {
    steps == [] || (Enabled(l, steps[0]) && Runs(After(l, steps[0]), steps[1..]))
  }

  function Final(l: Loop, steps: seq<Step>): Loop
    requires Runs(l, steps)
    decreases |steps|
  {
    if steps == [] then l else Final(After(l, steps[0]), steps[1..])
  }

  function Callbacks(steps: seq<Step>): nat {
    if steps == [] then 0 else (if steps[0].Callback? then 1 else 0) + Callbacks(steps[1..])
  }

  function Events(steps: seq<Step>): nat {
    if steps == [] then 0 else (if steps[0].Event? then 1 else 0) + Events(steps[1..])
  }

  /** Every callback lowers the budget, every event raises it by four, and the retry counter stays in
      0..3 with a retry event waiting whenever it is positive. */
  lemma StepBudget(l: Loop, step: Step)
    requires l.Valid() && Enabled(l, step)
    ensures After(l, step).Valid() && After(l, step).Budget() >= 0
    ensures step.Callback? ==> After(l, step).Budget() < l.Budget()
    ensures step.Event? ==> After(l, step).Budget() == l.Budget() + 4
  {
  }

  /** So the loop comes to rest: in any run, at most four callbacks for each event, pending at the
      start or arriving during the run. */
  lemma {:induction false} CallbacksBounded(l: Loop, steps: seq<Step>)
    requires l.Valid() && Runs(l, steps)
    ensures Final(l, steps).Valid()
    ensures Callbacks(steps) + Final(l, steps).Budget() <= l.Budget() + 4 * Events(steps)
    ensures Callbacks(steps) <= 4 * (l.pending + Events(steps))
    decreases |steps|
  {
    if steps != [] {
      StepBudget(l, steps[0]);
      CallbacksBounded(After(l, steps[0]), steps[1..]);
    }
  }

  // --- How often a failure is retried ---

  /** How many callbacks, the last ones of the run, failed in a row. */
  function FailuresInARow(steps: seq<Step>): nat {
    if steps == [] then 0
    else
      var init, last := steps[..|steps| - 1], steps[|steps| - 1];
      match last
      case Event => FailuresInARow(init)
      case Callback(_, failed) => if failed then FailuresInARow(init) + 1 else 0
  }

  lemma {:induction false} RunThen(l: Loop, steps: seq<Step>, step: Step)
    ensures Runs(l, steps + [step]) <==> Runs(l, steps) && Enabled(Final(l, steps), step)
    ensures Runs(l, steps + [step]) ==> Final(l, steps + [step]) == After(Final(l, steps), step)
    decreases |steps|
  {
    if steps == [] {
      assert steps + [step] == [step] && [step][1..] == [];
    } else {
      assert (steps + [step])[1..] == steps[1..] + [step];
      if Enabled(l, steps[0]) {
        RunThen(After(l, steps[0]), steps[1..], step);
      }
    }
  }

  /** In every run, the counter is the number of failures in a row, counted in fours. */
  lemma {:induction false} CounterCountsFailures(l: Loop, steps: seq<Step>)
    requires l.retries == 0 && Runs(l, steps)
    ensures Final(l, steps).retries == FailuresInARow(steps) % 4
  {
    if steps != [] {
      var init, last := steps[..|steps| - 1], steps[|steps| - 1];
      assert steps == init + [last];
      RunThen(l, init, last);
      CounterCountsFailures(l, init);
    }
  }

  /** What the last callback of any run leaves behind: after a failure an event is queued again, except
      when it is the fourth failure in a row, or the eighth, and so on; after a success none is. */
  lemma RetriedThreeTimes(l: Loop, steps: seq<Step>, consumed: nat, failed: bool)
    requires l.retries == 0 && Runs(l, steps + [Callback(consumed, failed)])
    ensures Runs(l, steps)
    ensures var run := steps + [Callback(consumed, failed)];
            var left := Final(l, steps).pending - consumed;
            Final(l, run).pending == if failed && FailuresInARow(run) % 4 != 0 then left + 1 else left
  {
    var step := Callback(consumed, failed);
    var run := steps + [step];
    RunThen(l, steps, step);
    CounterCountsFailures(l, steps);
    assert run[..|run| - 1] == steps && run[|run| - 1] == step;
  }

  /** In particular, one to three failures in a row leave an event waiting. */
  lemma FirstFailuresAreRetried(l: Loop, steps: seq<Step>)
    requires l.retries == 0 && Runs(l, steps) && 1 <= FailuresInARow(steps) <= 3
    ensures Final(l, steps).pending > 0
  {
    CallbacksBounded(l, steps);
    CounterCountsFailures(l, steps);
  }

  /** The run since the last callback that returned nil: was there a change, and how many callbacks have
      failed? */
  datatype Watch = Watch(changed: bool, failures: nat)
  {
    /** The last callback was the fourth failure in a row, or the eighth, and so on. */
    predicate GaveUp() { failures > 0 && failures % 4 == 0 }
  }

  function Watched(w: Watch, step: Step): Watch {
    match step
    case Event => w.(changed := true)
    case Callback(_, failed) => if failed then Watch(w.changed, w.failures + 1) else Watch(false, 0)
  }

  function FinalWatch(w: Watch, steps: seq<Step>): Watch
    decreases |steps|
  {
    if steps == [] then w else FinalWatch(Watched(w, steps[0]), steps[1..])
  }

  /** No change is lost: in every run, a change since the last callback that returned nil has an event
      waiting for it, unless the last callback was the fourth failure in a row, or a multiple of it. */
  lemma {:induction false} NoLostChange(l: Loop, w: Watch, steps: seq<Step>)
    requires l.Valid() && l.retries == w.failures % 4 && Runs(l, steps)
    requires w.changed ==> l.pending > 0 || w.GaveUp()
    ensures FinalWatch(w, steps).changed ==> Final(l, steps).pending > 0 || FinalWatch(w, steps).GaveUp()
    decreases |steps|
  {
    if steps != [] {
      StepBudget(l, steps[0]);
      NoLostChange(After(l, steps[0]), Watched(w, steps[0]), steps[1..]);
    }
  }
}

/** What `eventually` promises, proved about the model of its loop: a
    closed-form description of every run (how many calls it makes, why it
    stops, how it ends, and every step it takes in order), and the consequences the
    implementation relies on. */
module PollingProperties {
  import opened Exceptions
  import opened Polling

  /** None of the calls `from` up to `to` stopped the loop. */
  ghost predicate NoneStops(p: PollingConditions, closure: Closure, clock: Clock, from: nat, to: int) {
    forall j: nat :: from <= j < to ==> !Stops(p, closure, clock, j)
  }

  /** The current delay at the head of pass `k`: the configured delay,
      scaled by the truncated factor once per earlier pass. */
  function DelayAt(p: PollingConditions, k: nat): int {
    if k == 0 then p.delay else Product(DelayAt(p, k - 1), TruncateToRep(p.factor))
  }

  /** The sleep computed after the call with index `k`. */
  function SleepAt(p: PollingConditions, clock: Clock, k: nat): int {
    SleepAfter(p, clock, k, DelayAt(p, k))
  }

  /** The events of the loop passes `from` up to `to` that neither return
      nor throw, in order. */
  function PassesTrace(p: PollingConditions, clock: Clock, from: nat, to: int): seq<Event>
    decreases to - from
  {
    if to <= from then [] else Pass(p, clock, from, DelayAt(p, from)) + PassesTrace(p, clock, from + 1, to)
  }

  /** The number of passes of a run that slept: every call but a last one
      that returned true. */
  function Passes(r: Run): int {
    r.calls - (if r.ending == Returned then 1 else 0)
  }

  /** The last call of a run that returned: the call that returned true. */
  function FinalCall(r: Run): seq<Event> {
    if r.ending == Returned && r.calls > 0 then [Called(r.calls - 1)] else []
  }

  /** How a run from a loop head ends: no call is made exactly when the
      head already fails; the loop returns only after a call that returned
      true, and throws only after a call that did not and an elapsed time
      above the timeout, with the number of calls made as the exception's
      count. */
  lemma {:induction false} LoopOutcome(p: PollingConditions, closure: Closure, clock: Clock,
                                       trace: seq<Event>, attempts: nat, currentDelay: int)
    requires HeadEnds(p, closure, clock, attempts)
    ensures var r := Loop(p, closure, clock, trace, attempts, currentDelay);
      && r.calls >= attempts
      && (r.calls == attempts <==> ElapsedBefore(clock, attempts) > p.timeout)
      && (r.ending == Returned ==> r.calls > attempts && Satisfied(closure, r.calls - 1))
      && (r.ending.Thrown? ==> r.ending.exception.attempts == r.calls)
      && (r.ending.Thrown? && r.calls > attempts ==>
            !Satisfied(closure, r.calls - 1) && ElapsedAt(clock, r.calls - 1) > p.timeout)
    decreases PassesLeft(p, closure, clock, attempts)
  {
    if ElapsedBefore(clock, attempts) > p.timeout {
      LoopExits(p, closure, clock, trace, attempts, currentDelay);
    } else if Satisfied(closure, attempts) {
      LoopReturns(p, closure, clock, trace, attempts, currentDelay);
    } else {
      LoopUnfolds(p, closure, clock, trace, attempts, currentDelay);
      LoopOutcome(p, closure, clock, trace + Pass(p, clock, attempts, currentDelay),
                  attempts + 1, Product(currentDelay, TruncateToRep(p.factor)));
    }
  }

  /** No call before the last one stopped the loop. */
  lemma {:induction false} LoopStopsAtFirstStop(p: PollingConditions, closure: Closure, clock: Clock,
                                                trace: seq<Event>, attempts: nat, currentDelay: int)
    requires HeadEnds(p, closure, clock, attempts)
    ensures NoneStops(p, closure, clock, attempts, Loop(p, closure, clock, trace, attempts, currentDelay).calls - 1)
    decreases PassesLeft(p, closure, clock, attempts)
  {
    if ElapsedBefore(clock, attempts) <= p.timeout && !Satisfied(closure, attempts) {
      var trace' := trace + Pass(p, clock, attempts, currentDelay);
      var next := Product(currentDelay, TruncateToRep(p.factor));
      LoopUnfolds(p, closure, clock, trace, attempts, currentDelay);
      LoopOutcome(p, closure, clock, trace', attempts + 1, next);
      LoopStopsAtFirstStop(p, closure, clock, trace', attempts + 1, next);
    }
  }

  lemma PassesTraceStep(p: PollingConditions, clock: Clock, trace: seq<Event>, last: seq<Event>,
                        from: nat, to: int)
    requires from < to
    ensures (trace + Pass(p, clock, from, DelayAt(p, from))) + PassesTrace(p, clock, from + 1, to) + last
         == trace + PassesTrace(p, clock, from, to) + last
  {
    var step := Pass(p, clock, from, DelayAt(p, from));
    var rest := PassesTrace(p, clock, from + 1, to);
    assert PassesTrace(p, clock, from, to) == step + rest;
    assert (trace + step) + rest == trace + (step + rest);
  }

  /** What a run does, in closed form: the trace so far, then the events
      of every pass that did not return (call, two readings, the sleep
      when positive), then the call that returned true, if any. */
  lemma {:induction false} LoopTraceClosedForm(p: PollingConditions, closure: Closure, clock: Clock,
                                               trace: seq<Event>, attempts: nat)
    requires HeadEnds(p, closure, clock, attempts)
    ensures var r := Loop(p, closure, clock, trace, attempts, DelayAt(p, attempts));
      r.trace == trace + PassesTrace(p, clock, attempts, Passes(r)) + FinalCall(r)
    decreases PassesLeft(p, closure, clock, attempts)
  {
    var r := Loop(p, closure, clock, trace, attempts, DelayAt(p, attempts));
    if ElapsedBefore(clock, attempts) > p.timeout {
      LoopExits(p, closure, clock, trace, attempts, DelayAt(p, attempts));
      assert trace + [] + [] == trace;
    } else if Satisfied(closure, attempts) {
      LoopReturns(p, closure, clock, trace, attempts, DelayAt(p, attempts));
      assert trace + [] + [Called(attempts)] == trace + [Called(attempts)];
    } else {
      var trace' := trace + Pass(p, clock, attempts, DelayAt(p, attempts));
      LoopUnfolds(p, closure, clock, trace, attempts, DelayAt(p, attempts));
      LoopTraceClosedForm(p, closure, clock, trace', attempts + 1);
      LoopOutcome(p, closure, clock, trace', attempts + 1, DelayAt(p, attempts + 1));
      PassesTraceStep(p, clock, trace, FinalCall(r), attempts, Passes(r));
    }
  }

  /** The full description of `eventually`. With `n` the number of closure
      calls: no call is made only when the timeout is negative (so a zero
      timeout still allows one); no call before the last stopped the loop,
      so each returned something other than true and was followed by an
      elapsed time within the timeout; the call returns exactly when its
      last call returned true; otherwise it throws after a measured elapsed
      time above the timeout, with the exception carrying `n`; and its
      steps are the initial sleep when positive, the start-time reading,
      the passes that did not return, and the call that returned true. */
  lemma EventuallyCharacterized(p: PollingConditions, closure: Closure, clock: Clock)
    requires Terminates(p, closure, clock)
    ensures var r := Poll(p, closure, clock); var n := r.calls;
      && (n == 0 <==> p.timeout < 0)
      && NoneStops(p, closure, clock, 0, n - 1)
      && (r.ending == Returned <==> n > 0 && Satisfied(closure, n - 1))
      && (r.ending.Thrown? ==> r.ending.exception == PollingConditionsException(n)
                               && (n > 0 ==> ElapsedAt(clock, n - 1) > p.timeout))
      && r.trace == Start(p) + PassesTrace(p, clock, 0, Passes(r)) + FinalCall(r)
  {
    LoopOutcome(p, closure, clock, Start(p), 0, p.delay);
    LoopStopsAtFirstStop(p, closure, clock, Start(p), 0, p.delay);
    LoopTraceClosedForm(p, closure, clock, Start(p), 0);
  }

  /** The initial sleep, when there is one, comes first; then the start
      time is read; then, unless the timeout is negative, the closure is
      called. So the initial delay is slept once and before the time budget
      starts. */
  lemma StartsInOrder(p: PollingConditions, closure: Closure, clock: Clock)
    requires Terminates(p, closure, clock)
    ensures Start(p) <= Poll(p, closure, clock).trace
    ensures p.timeout >= 0 ==> Start(p) + [Called(0)] <= Poll(p, closure, clock).trace
  {
    var r := Poll(p, closure, clock);
    EventuallyCharacterized(p, closure, clock);
    var rest := PassesTrace(p, clock, 0, Passes(r)) + FinalCall(r);
    assert r.trace == Start(p) + rest;
    if p.timeout >= 0 {
      if Passes(r) > 0 {
        assert rest[0] == Pass(p, clock, 0, p.delay)[0];
      } else {
        assert rest == FinalCall(r);
      }
      assert rest[0] == Called(0);
      assert r.trace[..|Start(p)| + 1] == Start(p) + [Called(0)];
    }
  }

  /** The number of calls is the index of the first call that stops the
      loop, plus one, and that call decides how `eventually` ends. */
  lemma CallsAtFirstStop(p: PollingConditions, closure: Closure, clock: Clock, k: nat)
    requires p.timeout >= 0
    requires Stops(p, closure, clock, k)
    requires NoneStops(p, closure, clock, 0, k)
    ensures Poll(p, closure, clock).calls == k + 1
    ensures Poll(p, closure, clock).ending
         == if Satisfied(closure, k) then Returned else Thrown(PollingConditionsException(k + 1))
  {
    var r := Poll(p, closure, clock);
    EventuallyCharacterized(p, closure, clock);
    assert r.calls > 0 && Stops(p, closure, clock, r.calls - 1);
  }

  /** A closure that returns true at once, for every clock: one call, no
      sleep after it, no exception. */
  lemma ReturnsAtOnceWhenSatisfied(p: PollingConditions, closure: Closure, clock: Clock)
    requires p.timeout >= 0 && Satisfied(closure, 0)
    ensures Terminates(p, closure, clock)
    ensures Poll(p, closure, clock) == Run(Start(p) + [Called(0)], 1, Returned)
  {
    assert Stops(p, closure, clock, 0);
    LoopReturns(p, closure, clock, Start(p), 0, p.delay);
  }

  /** A closure that never returns true makes `eventually` throw, with an
      exception whose count is the number of calls. */
  lemma NeverSatisfiedThrows(p: PollingConditions, closure: Closure, clock: Clock)
    requires Terminates(p, closure, clock)
    requires forall k :: !Satisfied(closure, k)
    ensures Poll(p, closure, clock).ending == Thrown(PollingConditionsException(Poll(p, closure, clock).calls))
  {
    EventuallyCharacterized(p, closure, clock);
  }

  /** Two closures that return true on the same calls, under configurations
      with the same timeout, stop the loop at the same calls. */
  lemma SameStops(p: PollingConditions, q: PollingConditions, c1: Closure, c2: Closure, clock: Clock)
    requires q.timeout == p.timeout
    requires forall k :: Satisfied(c1, k) == Satisfied(c2, k)
    ensures SomeCallStops(p, c1, clock) == SomeCallStops(q, c2, clock)
    ensures Terminates(p, c1, clock) == Terminates(q, c2, clock)
    ensures SomeCallStops(p, c1, clock) ==> FirstStop(q, c2, clock) == FirstStop(p, c1, clock)
    ensures forall attempts: nat :: HeadEnds(p, c1, clock, attempts) == HeadEnds(q, c2, clock, attempts)
  {
    forall j: nat
      ensures Stops(q, c2, clock, j) == Stops(p, c1, clock, j)
    {
      assert Satisfied(c1, j) == Satisfied(c2, j);
    }
    if SomeCallStops(p, c1, clock) {
      var f := FirstStop(p, c1, clock);
      assert Stops(q, c2, clock, f);
      FirstStopIsUnique(q, c2, clock, f);
    }
    if SomeCallStops(q, c2, clock) {
      var f := FirstStop(q, c2, clock);
      assert Stops(p, c1, clock, f);
    }
  }

  /** The loop depends on the closure only through which calls return
      true, and on the configuration only through the timeout and the
      factor. */
  lemma {:induction false} LoopCongruent(p: PollingConditions, q: PollingConditions,
                                         c1: Closure, c2: Closure, clock: Clock,
                                         trace: seq<Event>, attempts: nat, currentDelay: int)
    requires HeadEnds(p, c1, clock, attempts)
    requires q.timeout == p.timeout && q.factor == p.factor
    requires forall k :: Satisfied(c1, k) == Satisfied(c2, k)
    ensures HeadEnds(q, c2, clock, attempts)
    ensures Loop(p, c1, clock, trace, attempts, currentDelay)
         == Loop(q, c2, clock, trace, attempts, currentDelay)
    decreases PassesLeft(p, c1, clock, attempts)
  {
    SameStops(p, q, c1, c2, clock);
    if ElapsedBefore(clock, attempts) <= p.timeout {
      if Satisfied(c1, attempts) {
        assert Satisfied(c2, attempts);
      } else {
        assert !Satisfied(c2, attempts);
        var trace' := trace + Pass(p, clock, attempts, currentDelay);
        assert trace + Pass(q, clock, attempts, currentDelay) == trace';
        LoopUnfolds(p, c1, clock, trace, attempts, currentDelay);
        LoopUnfolds(q, c2, clock, trace, attempts, currentDelay);
        LoopCongruent(p, q, c1, c2, clock, trace', attempts + 1, Product(currentDelay, TruncateToRep(p.factor)));
      }
    }
  }

  /** The closure with every exception replaced by a return of false. */
  function SwallowRaised(closure: Closure): Closure {
    (k: nat) => if closure(k).Raises? then Returns(false) else closure(k)
  }

  /** An exception from the closure is caught and counts as a failed
      attempt: `eventually` does exactly what it does when that call
      returns false instead. */
  lemma RaisedCountsAsFalse(p: PollingConditions, closure: Closure, clock: Clock)
    requires Terminates(p, closure, clock)
    ensures Terminates(p, SwallowRaised(closure), clock)
    ensures Poll(p, closure, clock) == Poll(p, SwallowRaised(closure), clock)
  {
    var swallowed := SwallowRaised(closure);
    forall k ensures Satisfied(closure, k) == Satisfied(swallowed, k) {
    }
    SameStops(p, p, closure, swallowed, clock);
    LoopCongruent(p, p, closure, swallowed, clock, Start(p), 0, p.delay);
  }

  lemma {:induction false} DelayAtIgnoresInitialDelay(p: PollingConditions, initialDelay: int, k: nat)
    ensures DelayAt(p.(initialDelay := initialDelay), k) == DelayAt(p, k)
  {
    if k > 0 {
      DelayAtIgnoresInitialDelay(p, initialDelay, k - 1);
    }
  }

  /** The passes do not depend on the initial delay. */
  lemma {:induction false} PassesTraceIgnoresInitialDelay(p: PollingConditions, initialDelay: int,
                                                          clock: Clock, from: nat, to: int)
    ensures PassesTrace(p.(initialDelay := initialDelay), clock, from, to) == PassesTrace(p, clock, from, to)
    decreases if from < to then to - from else 0
  {
    if from < to {
      DelayAtIgnoresInitialDelay(p, initialDelay, from);
      PassesTraceIgnoresInitialDelay(p, initialDelay, clock, from + 1, to);
    }
  }

  /** How many calls a run makes and how it ends do not depend on the
      trace recorded so far. */
  lemma {:induction false} LoopIgnoresTrace(p: PollingConditions, closure: Closure, clock: Clock,
                                            t1: seq<Event>, t2: seq<Event>, attempts: nat, currentDelay: int)
    requires HeadEnds(p, closure, clock, attempts)
    ensures Loop(p, closure, clock, t1, attempts, currentDelay).calls
         == Loop(p, closure, clock, t2, attempts, currentDelay).calls
    ensures Loop(p, closure, clock, t1, attempts, currentDelay).ending
         == Loop(p, closure, clock, t2, attempts, currentDelay).ending
    decreases PassesLeft(p, closure, clock, attempts)
  {
    if ElapsedBefore(clock, attempts) <= p.timeout && !Satisfied(closure, attempts) {
      LoopUnfolds(p, closure, clock, t1, attempts, currentDelay);
      LoopUnfolds(p, closure, clock, t2, attempts, currentDelay);
      LoopIgnoresTrace(p, closure, clock, t1 + Pass(p, clock, attempts, currentDelay),
                       t2 + Pass(p, clock, attempts, currentDelay), attempts + 1,
                       Product(currentDelay, TruncateToRep(p.factor)));
    }
  }

  /** The initial delay is slept before the start time is read, so it does
      not consume the timeout: changing it changes only the initial sleep,
      never whether `eventually` ends, the calls made, the later steps or
      how it ends. */
  lemma InitialDelayDoesNotConsumeBudget(p: PollingConditions, initialDelay: int,
                                         closure: Closure, clock: Clock)
    requires Terminates(p, closure, clock)
    ensures Terminates(p.(initialDelay := initialDelay), closure, clock)
    ensures var r := Poll(p, closure, clock);
            var r' := Poll(p.(initialDelay := initialDelay), closure, clock);
      && r'.calls == r.calls && r'.ending == r.ending
      && SleepIf(p.initialDelay) <= r.trace && SleepIf(initialDelay) <= r'.trace
      && r'.trace[|SleepIf(initialDelay)|..] == r.trace[|SleepIf(p.initialDelay)|..]
  {
    var q := p.(initialDelay := initialDelay);
    SameStops(p, q, closure, closure, clock);
    var r := Poll(p, closure, clock);
    var r' := Poll(q, closure, clock);
    LoopCongruent(p, q, closure, closure, clock, Start(p), 0, p.delay);
    LoopIgnoresTrace(q, closure, clock, Start(p), Start(q), 0, p.delay);
    LoopTraceClosedForm(p, closure, clock, Start(p), 0);
    LoopTraceClosedForm(q, closure, clock, Start(q), 0);
    PassesTraceIgnoresInitialDelay(p, initialDelay, clock, 0, Passes(r));
    assert Passes(r') == Passes(r) && FinalCall(r') == FinalCall(r);
    AfterInitialSleep(p, PassesTrace(p, clock, 0, Passes(r)), FinalCall(r));
    AfterInitialSleep(q, PassesTrace(p, clock, 0, Passes(r)), FinalCall(r));
  }

  /** What follows the initial sleep in a trace that starts as `eventually` does. */
  lemma AfterInitialSleep(p: PollingConditions, passes: seq<Event>, last: seq<Event>)
    ensures SleepIf(p.initialDelay) <= Start(p) + passes + last
    ensures (Start(p) + passes + last)[|SleepIf(p.initialDelay)|..] == [Read(0)] + passes + last
  {
    var t := Start(p) + passes + last;
    assert t == SleepIf(p.initialDelay) + ([Read(0)] + passes + last);
  }

  /** `ms` is the sleep of pass `k`: positive, no longer than that pass's
      current delay, and ending no later than the deadline `clock(0) +
      timeout` as measured by the reading taken just before it. */
  predicate SleepFits(p: PollingConditions, clock: Clock, k: nat, ms: int) {
    ms == SleepAt(p, clock, k) && 0 < ms <= DelayAt(p, k) && clock(k + k + 2) + ms <= clock(0) + p.timeout
  }

  /** Event `i` of `t` is a sleep that fits one of the passes `from` up to
      `to`, right after that pass's deadline reading. */
  ghost predicate SleepFitsSomePass(p: PollingConditions, clock: Clock, from: nat, to: int, t: seq<Event>, i: int) {
    0 < i < |t| && t[i].Slept?
    && exists k: nat :: from <= k < to && t[i - 1] == Read(k + k + 2) && SleepFits(p, clock, k, t[i].ms)
  }

  /** Every sleep of the passes `from` up to `to` comes right after the
      reading it was computed from and fits that pass. */
  lemma {:induction false} SleepsRespectDeadline(p: PollingConditions, clock: Clock, from: nat, to: int)
    ensures forall i :: 0 <= i < |PassesTrace(p, clock, from, to)| && PassesTrace(p, clock, from, to)[i].Slept? ==>
              SleepFitsSomePass(p, clock, from, to, PassesTrace(p, clock, from, to), i)
    decreases if from < to then to - from else 0
  {
    if from < to {
      var step := Pass(p, clock, from, DelayAt(p, from));
      var rest := PassesTrace(p, clock, from + 1, to);
      SleepsRespectDeadline(p, clock, from + 1, to);
      var t := PassesTrace(p, clock, from, to);
      assert t == step + rest;
      forall i | 0 <= i < |t| && t[i].Slept?
        ensures SleepFitsSomePass(p, clock, from, to, t, i)
      {
        if i < |step| {
          assert i == 3 && t[2] == Read(from + from + 2);
          assert SleepFits(p, clock, from, t[i].ms);
        } else {
          var j := i - |step|;
          assert t[i] == rest[j];
          assert SleepFitsSomePass(p, clock, from + 1, to, rest, j);
          var k: nat :| from + 1 <= k < to && rest[j - 1] == Read(k + k + 2) && SleepFits(p, clock, k, rest[j].ms);
          assert t[i - 1] == rest[j - 1];
        }
      }
    }
  }

  function Pow(b: int, k: nat): int {
    if k == 0 then 1 else b * Pow(b, k - 1)
  }

  /** The delay grows geometrically, with the truncated factor as ratio. */
  lemma {:induction false} DelayIsGeometric(p: PollingConditions, k: nat)
    ensures DelayAt(p, k) == p.delay * Pow(TruncateToRep(p.factor), k)
  {
    if k > 0 {
      var f := TruncateToRep(p.factor);
      DelayIsGeometric(p, k - 1);
      ProductIsMultiplication(DelayAt(p, k - 1), f);
      assert p.delay * Pow(f, k - 1) * f == p.delay * (f * Pow(f, k - 1));
    }
  }

  /** The factor takes effect only through its truncation to an integer:
      a factor from 1.0 up to 2.0 (1.5, say) keeps the delay constant, and
      one from 0.0 up to 1.0 sets it to zero after the first pass. */
  lemma {:induction false} FactorIsTruncated(p: PollingConditions, k: nat)
    ensures 1.0 <= p.factor < 2.0 ==> DelayAt(p, k) == p.delay
    ensures 0.0 <= p.factor < 1.0 && k > 0 ==> DelayAt(p, k) == 0
  {
    if k > 0 {
      FactorIsTruncated(p, k - 1);
      if 1.0 <= p.factor < 2.0 {
        assert TruncateToRep(p.factor) == 1;
      }
      if 0.0 <= p.factor < 1.0 {
        assert TruncateToRep(p.factor) == 0;
      }
    }
  }
}

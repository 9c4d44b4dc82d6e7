/** `PollingConditions`: an immutable timing configuration and the retry
    loop `eventually`, which calls a closure until it returns true or the
    measured elapsed time exceeds the timeout.

    All durations are integer milliseconds. The environment is abstract:
    the system clock is the sequence of readings `clock(0), clock(1), ...`
    in the order the loop takes them, the closure is the sequence of
    outcomes `closure(0), closure(1), ...` of its successive calls, and
    every `sleep_for`, clock reading and call is recorded, in order, in the
    run's trace instead of being performed. */
module Polling {
  import opened Exceptions

  /** The configuration, fixed at construction. The default arguments are
      those of the C++ constructor. */
  datatype PollingConditions = PollingConditions(
    timeout: int := 10000,
    initialDelay: int := 0,
    delay: int := 100,
    factor: real := 1.0)
  {
    function GetTimeout(): int { timeout }
    function GetInitialDelay(): int { initialDelay }
    function GetDelay(): int { delay }
    function GetFactor(): real { factor }
  }

  /** What one call of the closure does: return a bool or throw an
      exception carrying `what()`. */
  datatype Outcome = Returns(value: bool) | Raises(what: string)

  /** How `eventually` ends: it returns, or it throws. */
  datatype Ending = Returned | Thrown(exception: PollingConditionsException)

  /** One observable step of `eventually`, in the order it happens: a
      `sleep_for` of `ms` milliseconds, the clock reading with index
      `reading`, or the call of the closure with index `call`. */
  datatype Event = Slept(ms: int) | Read(reading: nat) | Called(call: nat)

  /** What a call of `eventually` did: its steps in order, how many times
      it called the closure, and how it ended. */
  datatype Run = Run(trace: seq<Event>, calls: nat, ending: Ending)

  type Clock = nat -> int
  type Closure = nat -> Outcome

  lemma ConstructionStoresArguments(timeout: int, initialDelay: int, delay: int, factor: real)
    ensures var p := PollingConditions(timeout, initialDelay, delay, factor);
      p.GetTimeout() == timeout && p.GetInitialDelay() == initialDelay
      && p.GetDelay() == delay && p.GetFactor() == factor
    ensures var d := PollingConditions();
      d.GetTimeout() == 10000 && d.GetInitialDelay() == 0
      && d.GetDelay() == 100 && d.GetFactor() == 1.0
  {
  }

  /** The conversion of the `double` factor to the integer millisecond
      representation that `duration::operator*=(const rep&)` performs:
      truncation toward zero. */
  function TruncateToRep(x: real): (r: int)
    ensures 0.0 <= x ==> r as real <= x < r as real + 1.0
    ensures x < 0.0 ==> r as real - 1.0 < x <= r as real
  {
    if x >= 0.0 then x.Floor else -((-x).Floor)
  }

  /** `a * b` written as repeated addition. The loop scales its delay with
      it, so that unfolding the loop gives the solver linear terms only;
      `ProductIsMultiplication` shows it is the product. */
  function Product(a: int, b: int): int
    decreases if b < 0 then -b else b
  {
    if b == 0 then 0 else if b > 0 then Product(a, b - 1) + a else Product(a, b + 1) - a
  }

  lemma {:induction false} ProductIsMultiplication(a: int, b: int)
    ensures Product(a, b) == a * b
    decreases if b < 0 then -b else b
  {
    if b > 0 {
      ProductIsMultiplication(a, b - 1);
    } else if b < 0 {
      ProductIsMultiplication(a, b + 1);
    }
  }

  /** `durationMinMs`: the smaller of two durations. */
  function DurationMinMs(first: int, second: int): (m: int)
    ensures m <= first && m <= second
    ensures m == first || m == second
  {
    if second < first then second else first
  }

  /** The elapsed time the loop measures after the call with index `k`:
      the loop takes reading 0 as its start time and readings 2k+1 and
      2k+2 after that call. */
  function ElapsedAt(clock: Clock, k: nat): int {
    clock(k + k + 1) - clock(0)
  }

  /** The elapsed time the loop head compares with the timeout after
      `attempts` calls: zero before the first call, then the time measured
      after the latest call. */
  function ElapsedBefore(clock: Clock, attempts: nat): int {
    if attempts == 0 then 0 else ElapsedAt(clock, attempts - 1)
  }

  /** The call with index `k` returned true. */
  predicate Satisfied(closure: Closure, k: nat) {
    closure(k) == Returns(true)
  }

  /** The loop cannot go on after the call with index `k`: the call
      returned true, or the elapsed time measured after it exceeds the
      timeout. */
  predicate Stops(p: PollingConditions, closure: Closure, clock: Clock, k: nat) {
    Satisfied(closure, k) || ElapsedAt(clock, k) > p.timeout
  }

  /** `k` is the first call that stops the loop. */
  predicate IsFirstStop(p: PollingConditions, closure: Closure, clock: Clock, k: nat) {
    Stops(p, closure, clock, k) && forall j: nat :: j < k ==> !Stops(p, closure, clock, j)
  }

  ghost predicate SomeCallStops(p: PollingConditions, closure: Closure, clock: Clock) {
    exists k: nat :: Stops(p, closure, clock, k)
  }

  /** `eventually` ends: either the timeout is negative and the loop head
      fails at once, or some call returns true or measures an elapsed time
      over the timeout. Otherwise every call is followed by another and the
      loop polls forever. */
  ghost predicate Terminates(p: PollingConditions, closure: Closure, clock: Clock) {
    p.timeout < 0 || SomeCallStops(p, closure, clock)
  }

  lemma {:induction false} FirstStopExists(p: PollingConditions, closure: Closure, clock: Clock, n: nat)
    requires Stops(p, closure, clock, n)
    ensures exists k: nat :: IsFirstStop(p, closure, clock, k)
  {
    if !IsFirstStop(p, closure, clock, n) {
      var j: nat :| j < n && Stops(p, closure, clock, j);
      FirstStopExists(p, closure, clock, j);
    }
  }

  ghost function FirstStop(p: PollingConditions, closure: Closure, clock: Clock): (k: nat)
    requires SomeCallStops(p, closure, clock)
    ensures IsFirstStop(p, closure, clock, k)
  {
    var n: nat :| Stops(p, closure, clock, n);
    FirstStopExists(p, closure, clock, n);
    var k: nat :| IsFirstStop(p, closure, clock, k);
    k
  }

  /** There is only one first stop. */
  lemma FirstStopIsUnique(p: PollingConditions, closure: Closure, clock: Clock, k: nat)
    requires IsFirstStop(p, closure, clock, k)
    ensures SomeCallStops(p, closure, clock) && FirstStop(p, closure, clock) == k
  {
  }

  /** The loop head after `attempts` calls is one from which the loop
      ends: it fails at once, or no call before it has stopped the loop
      and a later one will. */
  ghost predicate HeadEnds(p: PollingConditions, closure: Closure, clock: Clock, attempts: nat) {
    ElapsedBefore(clock, attempts) > p.timeout
    || (SomeCallStops(p, closure, clock) && attempts <= FirstStop(p, closure, clock))
  }

  /** The passes left before the first stop. */
  ghost function PassesLeft(p: PollingConditions, closure: Closure, clock: Clock, attempts: nat): nat {
    if SomeCallStops(p, closure, clock) && attempts <= FirstStop(p, closure, clock)
    then FirstStop(p, closure, clock) + 1 - attempts
    else 0
  }

  /** The sleep computed after the call with index `k` when the current
      delay is `currentDelay`: the delay, cut short so as not to pass the
      deadline by the second reading after the call. */
  function SleepAfter(p: PollingConditions, clock: Clock, k: nat, currentDelay: int): (ms: int)
    ensures ms <= currentDelay && clock(k + k + 2) + ms <= clock(0) + p.timeout
    ensures ms == currentDelay || clock(k + k + 2) + ms == clock(0) + p.timeout
  {
    DurationMinMs(currentDelay, clock(0) + p.timeout - clock(k + k + 2))
  }

  /** A `sleep_for` of `ms` milliseconds, which the loop performs only when
      `ms` is positive. */
  function SleepIf(ms: int): seq<Event> {
    if ms > 0 then [Slept(ms)] else []
  }

  /** What `eventually` does before its loop: the initial sleep, when
      positive, then the start-time reading. */
  function Start(p: PollingConditions): seq<Event> {
    SleepIf(p.initialDelay) + [Read(0)]
  }

  /** A pass through the loop body that neither returns nor throws: the
      call, the reading of the elapsed time, the reading for the deadline,
      and the sleep when positive. */
  function Pass(p: PollingConditions, clock: Clock, k: nat, currentDelay: int): seq<Event> {
    [Called(k), Read(k + k + 1), Read(k + k + 2)] + SleepIf(SleepAfter(p, clock, k, currentDelay))
  }

  /** The loop from its head: `trace` is what happened so far, `attempts`
      the calls made so far and `currentDelay` the current delay. */
  function Loop(p: PollingConditions, closure: Closure, clock: Clock, trace: seq<Event>,
                attempts: nat, currentDelay: int): Run
    requires HeadEnds(p, closure, clock, attempts)
    decreases PassesLeft(p, closure, clock, attempts)
  {
    if ElapsedBefore(clock, attempts) > p.timeout then
      Run(trace, attempts, Thrown(PollingConditionsException(attempts)))
    else if Satisfied(closure, attempts) then
      Run(trace + [Called(attempts)], attempts + 1, Returned)
    else
      Loop(p, closure, clock, trace + Pass(p, clock, attempts, currentDelay), attempts + 1,
           Product(currentDelay, TruncateToRep(p.factor)))
  }

  /** One pass through the loop body that neither returns nor throws leads
      to the next loop head. */
  lemma LoopUnfolds(p: PollingConditions, closure: Closure, clock: Clock, trace: seq<Event>,
                    attempts: nat, currentDelay: int)
    requires HeadEnds(p, closure, clock, attempts)
    requires ElapsedBefore(clock, attempts) <= p.timeout && !Satisfied(closure, attempts)
    ensures HeadEnds(p, closure, clock, attempts + 1)
    ensures Loop(p, closure, clock, trace, attempts, currentDelay)
         == Loop(p, closure, clock, trace + Pass(p, clock, attempts, currentDelay), attempts + 1,
                 Product(currentDelay, TruncateToRep(p.factor)))
  {
  }

  /** At a loop head whose elapsed time exceeds the timeout the loop exits
      and throws. */
  lemma LoopExits(p: PollingConditions, closure: Closure, clock: Clock, trace: seq<Event>,
                  attempts: nat, currentDelay: int)
    requires ElapsedBefore(clock, attempts) > p.timeout
    ensures HeadEnds(p, closure, clock, attempts)
    ensures Loop(p, closure, clock, trace, attempts, currentDelay)
         == Run(trace, attempts, Thrown(PollingConditionsException(attempts)))
  {
  }

  /** A call that returns true ends the loop. */
  lemma LoopReturns(p: PollingConditions, closure: Closure, clock: Clock, trace: seq<Event>,
                    attempts: nat, currentDelay: int)
    requires HeadEnds(p, closure, clock, attempts)
    requires ElapsedBefore(clock, attempts) <= p.timeout && Satisfied(closure, attempts)
    ensures Loop(p, closure, clock, trace, attempts, currentDelay)
         == Run(trace + [Called(attempts)], attempts + 1, Returned)
  {
  }

  /** `currentDelay *= factor_`: the `double` factor is converted to the
      integer representation first, then multiplied in. */
  method ScaleDelay(currentDelay: int, factor: real) returns (scaled: int)
    ensures scaled == Product(currentDelay, TruncateToRep(factor))
  {
    scaled := currentDelay * TruncateToRep(factor);
    ProductIsMultiplication(currentDelay, TruncateToRep(factor));
  }

  /** `eventually` as a function of the configuration and the environment. */
  function Poll(p: PollingConditions, closure: Closure, clock: Clock): Run
    requires Terminates(p, closure, clock)
  {
    Loop(p, closure, clock, Start(p), 0, p.delay)
  }

  /** `eventually`: sleep once for the initial delay, take the start time,
      then call the closure, measure, sleep and scale the delay until the
      closure returns true or the elapsed time exceeds the timeout. */
  method Eventually(p: PollingConditions, closure: Closure, clock: Clock) returns (r: Run)
    requires Terminates(p, closure, clock)
    ensures r == Poll(p, closure, clock)
  {
    var trace: seq<Event> := [];
    if p.initialDelay > 0 {
      trace := trace + [Slept(p.initialDelay)];
    }

    var readings: nat := 0;
    var attempts: nat := 0;
    var startTime := clock(readings);
    trace := trace + [Read(readings)];
    readings := readings + 1;
    assert trace == Start(p);
    var currentDelay := p.delay;
    var elapsedTime := 0;

    ghost var goal := Poll(p, closure, clock);
    while elapsedTime <= p.timeout
      invariant readings == attempts + attempts + 1
      invariant startTime == clock(0)
      invariant elapsedTime == ElapsedBefore(clock, attempts)
      invariant HeadEnds(p, closure, clock, attempts)
      invariant goal == Loop(p, closure, clock, trace, attempts, currentDelay)
      decreases PassesLeft(p, closure, clock, attempts)
    {
      ghost var before := trace;
      ghost var k := attempts;
      ghost var delay := currentDelay;
      attempts := attempts + 1;
      var outcome := closure(attempts - 1);
      trace := trace + [Called(attempts - 1)];
      if outcome == Returns(true) {
        LoopReturns(p, closure, clock, before, k, currentDelay);
        return Run(trace, attempts, Returned);
      }

      assert readings == k + k + 1;
      elapsedTime := clock(readings) - startTime;
      trace := trace + [Read(readings)];
      readings := readings + 1;
      var sleepMillis := DurationMinMs(currentDelay, startTime + p.timeout - clock(readings));
      trace := trace + [Read(readings)];
      readings := readings + 1;

      if sleepMillis > 0 {
        trace := trace + [Slept(sleepMillis)];
      }
      assert trace == before + Pass(p, clock, k, delay);
      currentDelay := ScaleDelay(currentDelay, p.factor);
      LoopUnfolds(p, closure, clock, before, k, delay);
    }

    LoopExits(p, closure, clock, trace, attempts, currentDelay);
    r := Run(trace, attempts, Thrown(PollingConditionsException(attempts)));
  }
}

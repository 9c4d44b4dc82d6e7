# PollingConditions in Dafny

This project models the polling engine of the C++ header-only library
PollingConditions (`dev::marcinromanowski`). It covers:

- `PollingConditions::eventually`, which calls a boolean closure until it
  returns true, waiting between calls, and throws
  `PollingConditionsException` once the measured elapsed time exceeds the
  timeout;
- the immutable configuration it reads: timeout, initial delay, delay and
  backoff factor;
- the helper `durationMinMs`;
- the reason string of the exception;
- the three predefined configurations, together with the scenarios the
  repository's tests run with them.

Durations are integer milliseconds. The environment is made explicit:

- **The system clock** is a function `Clock = nat -> int`. It lists the
  readings `eventually` takes, in order. Reading 0 is the start time. After
  the call with index `k`, reading `2k+1` gives the elapsed time and reading
  `2k+2` is used to compute the sleep.
- **The closure** is a function `Closure = nat -> Outcome`. It gives what
  each successive call does: return true, return false, or throw a
  `std::exception` whose `what()` is some string.
- **`sleep_for`** is never performed. A run records what `eventually`
  does, in order, in its trace (`Run.trace`): `Slept(ms)` for every
  `sleep_for` it makes, `Read(i)` for every clock reading and `Called(k)`
  for every call of the closure. The order of the initial sleep, the
  start-time reading and the first call is therefore part of what is
  proved.

`Polling.Eventually` is the loop written imperatively: the same statements,
in the same order, with the same readings. It is proved equal to the
function `Polling.Poll`, which defines the run by recursion over the passes
(`Polling.Loop`). `PollingProperties` and `Presets` then prove what
`eventually` promises about `Poll`.

The loop has no bound of its own. It ends exactly when the timeout is
negative, so that the loop test fails before any call, or when some call
returns true or is followed by an elapsed time above the timeout. The model
states that condition as `Polling.Terminates(p, closure, clock)`. When it is
false, every call is followed by another and the source polls forever. The
recursion in `Loop` is measured by the number of passes left before the
first call that stops it.

Where the code and the library's description disagree, the model follows
the code:

- The backoff factor is a `double`, but `currentDelay *= factor` multiplies
  a `std::chrono::milliseconds`. That goes through
  `duration::operator*=(const rep&)`, so the factor is first truncated to
  an integer. A factor of 1.5 therefore keeps the delay constant, and a
  factor of 0.5 zeroes it after the first pass, rather than growing or
  shrinking it geometrically (`PollingProperties.FactorIsTruncated`).
- At least one attempt is made only when the timeout is not negative. A
  negative timeout fails the loop test before any call, and the exception
  then reports 0 attempts (`PollingProperties.EventuallyCharacterized`).
- The test at `test/pollingconditionstests.cpp:18-25` expects the reason to
  contain "Condition not satisfied after 10s". The reason the exception
  builds is "Condition not satisfied after N attempts", and it never
  contains that text (`Exceptions.NoReasonMentionsSeconds`,
  `Presets.WaitThrowsForAlwaysFalse`).

Files:

- `option.dfy`: the optional value the parsers return.
- `tostring.dfy`: `std::to_string` for `int`, and its inverse.
- `exception.dfy`: the exception and its reason.
- `polling.dfy`: the configuration, the loop and `eventually`.
- `properties.dfy`: the properties of `eventually`.
- `presets.dfy`: the predefined configurations and the test scenarios.

## Model

| member | source | states |
|---|---|---|
| Polling.ConstructionStoresArguments | src/pollingconditions.h:34-60 | each getter returns the argument given for it; the defaults are 10000 ms, 0 ms, 100 ms and 1.0 |
| Polling.TruncateToRep | src/pollingconditions.h:89 | converting the `double` factor to the integer rep truncates toward zero: the result is within one below (or, for negative factors, above) the factor |
| Polling.ProductIsMultiplication | src/pollingconditions.h:89 | the repeated-addition product that the loop scales the delay with equals integer multiplication |
| Polling.ScaleDelay | src/pollingconditions.h:89 | `currentDelay *= factor` yields the current delay times the truncated factor |
| Polling.DurationMinMs | src/pollingconditions.h:100-106 | the result is no greater than either duration and equals one of them |
| Polling.ElapsedAt | src/pollingconditions.h:82 | models `getCurrentTimeMs() - startTime` after call `k` as reading 2k+1 minus reading 0; `PollingProperties.LoopOutcome` and `EventuallyCharacterized` state how it decides the loop test |
| Polling.SleepAfter | src/pollingconditions.h:83 | the sleep computed after a call is at most the current delay, ends no later than the start time plus the timeout as the second reading after the call sees it, and equals one of those two bounds |
| Polling.Loop | src/pollingconditions.h:72-90 | models the loop from a head: test, call, measure, sleep when positive, scale; its outcome is stated by `PollingProperties.LoopOutcome` and `LoopStopsAtFirstStop`, its trace by `LoopTraceClosedForm` |
| Polling.Poll | src/pollingconditions.h:62-93 | models `eventually` as a value: the initial sleep, the start-time reading, then `Loop` from zero calls with the configured delay; `PollingProperties.EventuallyCharacterized` and `StartsInOrder` state its properties |
| Polling.Eventually | src/pollingconditions.h:62-93 | the imperative loop (initial sleep, start time, attempt counter, measuring, sleeping, scaling, throwing) produces exactly the run `Poll` defines, trace included |
| Exceptions.PollingConditionsException.What | src/pollingconditions.h:18-25 | models the reason built in the constructor and returned by `what()`; `ReasonRoundTrip`, `ReasonsAreDistinct` and `NoReasonMentionsSeconds` state its properties |
| Exceptions.ReasonRoundTrip | src/pollingconditions.h:12-29 | the reason starts with "Condition not satisfied after ", ends with " attempts", and the attempt count reads back from it unchanged |
| Exceptions.ReasonsAreDistinct | src/pollingconditions.h:18-19 | exceptions with different attempt counts carry different reasons |
| Exceptions.NoReasonMentionsSeconds | test/pollingconditionstests.cpp:18-25 | no reason the exception builds contains "Condition not satisfied after 10s", the text this test searches for |
| ToString.Digits | src/pollingconditions.h:19 | the digits of a natural number are a non-empty string of decimal digits, with no leading zero |
| ToString.Decimal | src/pollingconditions.h:19 | `std::to_string` of an int is non-empty; it is all digits exactly when the number is not negative and starts with '-' exactly when it is negative; a negative number's '-' is followed by at least one digit and no leading zero; a leading '0' occurs only in "0" |
| ToString.DigitsRoundTrip | src/pollingconditions.h:19 | reading the digits of a natural number back in base ten gives the number |
| ToString.DecimalRoundTrip | src/pollingconditions.h:19 | parsing `std::to_string(n)` gives back `n`, for negative values too |
| PollingProperties.LoopOutcome | src/pollingconditions.h:72-92 | from any loop head: no call is made exactly when the elapsed time already exceeds the timeout; a return follows a call that returned true; a throw carries the number of calls, and its last call neither returned true nor left the elapsed time within the timeout |
| PollingProperties.LoopStopsAtFirstStop | src/pollingconditions.h:72-90 | the loop goes on after every call before its last one: none of those returned true, and each left the elapsed time within the timeout |
| PollingProperties.LoopTraceClosedForm | src/pollingconditions.h:73-89 | from any loop head, the trace grows by the events of each pass that did not return (the call, the two readings, then the sleep only when positive, of the minimum of that pass's delay and the budget left) and then the call that returned true, if any |
| PollingProperties.EventuallyCharacterized | src/pollingconditions.h:62-93 | with n calls made: n is 0 exactly when the timeout is negative; no call before the last stopped the loop; it returns exactly when the last call returned true; otherwise it throws the exception for n after the last call measured an elapsed time over the timeout; the trace is the initial sleep (when positive), the start-time reading, the passes and the final call |
| PollingProperties.StartsInOrder | src/pollingconditions.h:63-75 | the trace begins with the initial sleep when positive, then the start-time reading, then (for a non-negative timeout) the first call |
| PollingProperties.CallsAtFirstStop | src/pollingconditions.h:72-92 | with a non-negative timeout, if call k is the first that returned true or measured an elapsed time over the timeout, `eventually` ends and makes k+1 calls, returning or throwing according to that call |
| PollingProperties.ReturnsAtOnceWhenSatisfied | src/pollingconditions.h:72-77 | for every clock, a first call that returns true under a non-negative timeout means `eventually` ends with the start steps, a single call and a normal return |
| PollingProperties.NeverSatisfiedThrows | src/pollingconditions.h:72-92 | a closure that never returns true makes `eventually` throw an exception that carries the number of calls made |
| PollingProperties.SameStops | src/pollingconditions.h:72-82 | whether and where the loop stops depends only on the timeout and on which calls return true |
| PollingProperties.LoopCongruent | src/pollingconditions.h:73-89 | from any loop head, the run depends on the closure only through which calls returned true, and on the configuration only through the timeout and the factor |
| PollingProperties.RaisedCountsAsFalse | src/pollingconditions.h:73-80 | a call that throws a `std::exception` is caught and counts as returning false: `eventually` ends exactly when it would have, with the same run |
| PollingProperties.LoopIgnoresTrace | src/pollingconditions.h:72-92 | the number of calls and how the loop ends do not depend on what happened before the loop head |
| PollingProperties.DelayAtIgnoresInitialDelay | src/pollingconditions.h:69-89 | the current delay of every pass does not depend on the initial delay |
| PollingProperties.PassesTraceIgnoresInitialDelay | src/pollingconditions.h:73-89 | the events of the passes, sleeps included, do not depend on the initial delay |
| PollingProperties.InitialDelayDoesNotConsumeBudget | src/pollingconditions.h:63-68 | the initial delay is slept once, only when positive, and before the start time is read; changing it changes nothing else: not whether `eventually` ends, the number of calls, the ending, or any later step |
| PollingProperties.SleepsRespectDeadline | src/pollingconditions.h:83-87 | every sleep after a call directly follows the reading it was computed from, is positive, is no longer than that pass's current delay, and does not extend past the start time plus the timeout |
| PollingProperties.DelayIsGeometric | src/pollingconditions.h:69-89 | the current delay of pass k is the configured delay times the truncated factor raised to the power k |
| PollingProperties.FactorIsTruncated | src/pollingconditions.h:89 | a factor in [1.0, 2.0) keeps the delay constant, and a factor in [0.0, 1.0) makes it zero from the second pass on |
| Presets.PresetsKeepDelayConstant | src/predefinedpollingconditions.h:10-12 | the three presets have timeouts of 1000, 10000 and 30000 ms and agree in everything else: none sleeps before polling, and each keeps a 100 ms delay on every pass |
| Presets.ShortWaitReturnsAtOnce | test/pollingconditionstests.cpp:11-16 | for every clock, under the short wait an always-true closure makes `eventually` end after the start-time reading and one call, with nothing slept, returning normally |
| Presets.WaitThrowsForAlwaysFalse | test/pollingconditionstests.cpp:18-25 | under the standard wait, an always-false closure makes `eventually` throw after at least one call; the reason reports that number of calls and does not contain "Condition not satisfied after 10s" |
| Presets.WaitSurvivesTenThrows | test/pollingconditionstests.cpp:27-41 | under the standard wait, a closure that throws ten times and then returns true makes `eventually` end, returning after eleven calls, whenever those ten calls end within the timeout |

## Left out

- Real time: `system_clock::now` (src/pollingconditions.h:96-98) and `std::this_thread::sleep_for` are not performed. The clock readings are a parameter, and sleeps are recorded in the trace rather than slept. Clock steps, and the fact that sleeping moves the clock forward, are therefore not constrained.
- Non-terminating runs: `Poll`, `Eventually` and the lemmas about a run require `Terminates`, which holds exactly when the source's loop ends. The source's loop can poll forever when it is false (a clock that never advances and a closure that never returns true), and an infinite run is not a Dafny value.
- Presets.WaitThrowsForAlwaysFalse: requires that the run ends, because an always-false closure under a clock that never passes the timeout polls forever in the source too.
- The diagnostic line written to `std::cout` for a caught exception (src/pollingconditions.h:79): it is output only.
- Exceptions thrown by the closure that do not derive from `std::exception` propagate out of `eventually` in the source. The model's closure raises only `std::exception`s.
- Floating point: the factor is a real number, and it takes effect only through its truncation toward zero. No `double` rounding is modelled. A factor outside the range of the rep is undefined behaviour in C++ and is not modelled.
- Fixed-width arithmetic: the 64-bit millisecond rep and the `int` attempt counter are unbounded integers here. Overflow of `currentDelay` under repeated scaling, and of the counter past 2^31-1 attempts, are not modelled.
- The `Rep`/`Period` template parameters and the `duration_cast`s between them: every duration is in whole milliseconds, so the conversions in lines 69 and 100-106 are the identity here.
- `constantly` and its test (`test/pollingconditionstests.cpp:43-61`): it is not part of this model, because the header shown does not define it.
- The Boost test harness itself: the test cases appear only as the scenario lemmas in `Presets`.

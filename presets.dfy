/** The three predefined configurations and the scenarios the repository's
    tests exercise with them, stated about the model of `eventually`. */
module Presets {
  import opened Options
  import opened Exceptions
  import opened Polling
  import opened PollingProperties

  const ShortWait := PollingConditions(1000, 0, 100, 1.0)
  const Wait := PollingConditions(10000, 0, 100, 1.0)
  const LongWait := PollingConditions(30000, 0, 100, 1.0)

  /** The presets differ only in their timeout, and none sleeps before
      polling or scales its delay. */
  lemma PresetsKeepDelayConstant(k: nat)
    ensures ShortWait.timeout == 1000 && Wait.timeout == 10000 && LongWait.timeout == 30000
    ensures ShortWait.(timeout := 0) == Wait.(timeout := 0) == LongWait.(timeout := 0)
    ensures ShortWait.initialDelay == 0 && Wait.initialDelay == 0 && LongWait.initialDelay == 0
    ensures DelayAt(ShortWait, k) == 100 && DelayAt(Wait, k) == 100 && DelayAt(LongWait, k) == 100
  {
    FactorIsTruncated(ShortWait, k);
    FactorIsTruncated(Wait, k);
    FactorIsTruncated(LongWait, k);
  }

  /** A closure that always returns true. */
  function AlwaysTrue(): Closure {
    (k: nat) => Returns(true)
  }

  /** A closure that always returns false. */
  function AlwaysFalse(): Closure {
    (k: nat) => Returns(false)
  }

  /** A closure that throws on its first ten calls and returns true from
      then on. */
  function TrueAfterTenThrows(): Closure {
    (k: nat) => if k < 10 then Raises("Mocked exception") else Returns(true)
  }

  /** An always-true closure under the short wait, for every clock (the
      first call comes before any elapsed time is measured): `eventually`
      ends after reading the start time and making one call, with no sleep
      and no exception. */
  lemma ShortWaitReturnsAtOnce(clock: Clock)
    ensures Terminates(ShortWait, AlwaysTrue(), clock)
    ensures Poll(ShortWait, AlwaysTrue(), clock) == Run([Read(0), Called(0)], 1, Returned)
  {
    ReturnsAtOnceWhenSatisfied(ShortWait, AlwaysTrue(), clock);
  }

  /** An always-false closure under the standard wait throws, and the reason
      it carries counts the calls made; it never reads "Condition not
      satisfied after 10s". */
  lemma WaitThrowsForAlwaysFalse(clock: Clock)
    requires Terminates(Wait, AlwaysFalse(), clock)
    ensures var r := Poll(Wait, AlwaysFalse(), clock);
      && r.calls >= 1
      && r.ending == Thrown(PollingConditionsException(r.calls))
      && AttemptsOf(r.ending.exception.What()) == Some(r.calls)
      && !IsInfix(ReasonPrefix + "10s", r.ending.exception.What())
  {
    var r := Poll(Wait, AlwaysFalse(), clock);
    EventuallyCharacterized(Wait, AlwaysFalse(), clock);
    assert !Satisfied(AlwaysFalse(), r.calls - 1);
    ReasonRoundTrip(r.calls);
    NoReasonMentionsSeconds(r.calls);
  }

  /** Ten thrown exceptions followed by true, under the standard wait, with
      the ten failed calls measured within the timeout: `eventually` returns
      after eleven calls, so the closure has thrown exactly ten times. */
  lemma WaitSurvivesTenThrows(clock: Clock)
    requires forall j: nat :: j < 10 ==> ElapsedAt(clock, j) <= Wait.timeout
    ensures Terminates(Wait, TrueAfterTenThrows(), clock)
    ensures Poll(Wait, TrueAfterTenThrows(), clock).calls == 11
    ensures Poll(Wait, TrueAfterTenThrows(), clock).ending == Returned
  {
    var closure := TrueAfterTenThrows();
    forall j: nat | j < 10
      ensures !Stops(Wait, closure, clock, j)
    {
      assert closure(j) == Raises("Mocked exception");
    }
    assert Stops(Wait, closure, clock, 10);
    CallsAtFirstStop(Wait, closure, clock, 10);
  }
}

/** `PollingConditionsException`: the failure `eventually` raises. Its
    reason is a fixed function of the attempt count it was constructed
    with; the model keeps the count and derives the reason from it, and
    `ReasonRoundTrip` shows the reason determines the count, so nothing is
    lost. */
module Exceptions {
  import opened Options
  import opened ToString

  const ReasonPrefix: string := "Condition not satisfied after "
  const ReasonSuffix: string := " attempts"

  datatype PollingConditionsException = PollingConditionsException(attempts: int)
  {
    /** `what()`: prefix, decimal attempt count, suffix. */
    function What(): string {
      ReasonPrefix + Decimal(attempts) + ReasonSuffix
    }
  }

  /** The attempt count a reason reports, if the reason has the shape
      prefix, decimal number, suffix. */
  function AttemptsOf(reason: string): Option<int> {
    if |reason| >= |ReasonPrefix| + |ReasonSuffix|
       && reason[..|ReasonPrefix|] == ReasonPrefix
       && reason[|reason| - |ReasonSuffix|..] == ReasonSuffix
    then ParseDecimal(reason[|ReasonPrefix|..|reason| - |ReasonSuffix|])
    else None
  }

  /** The reason starts with the prefix and ends with the suffix, and the
      attempt count can be read back from it, so exceptions with different
      counts never carry the same reason. */
  lemma ReasonRoundTrip(attempts: int)
    ensures ReasonPrefix <= PollingConditionsException(attempts).What()
    ensures AttemptsOf(PollingConditionsException(attempts).What()) == Some(attempts)
  {
    var digits := Decimal(attempts);
    var reason := PollingConditionsException(attempts).What();
    assert reason[..|ReasonPrefix|] == ReasonPrefix;
    assert reason[|reason| - |ReasonSuffix|..] == ReasonSuffix;
    assert reason[|ReasonPrefix|..|reason| - |ReasonSuffix|] == digits;
    DecimalRoundTrip(attempts);
  }

  lemma ReasonsAreDistinct(m: int, n: int)
    requires m != n
    ensures PollingConditionsException(m).What() != PollingConditionsException(n).What()
  {
    ReasonRoundTrip(m);
    ReasonRoundTrip(n);
  }

  /** `needle` occurs in `haystack` starting at index `k`. */
  predicate OccursAt(needle: string, haystack: string, k: int) {
    0 <= k <= |haystack| - |needle| && haystack[k..k + |needle|] == needle
  }

  /** `haystack.find(needle) != npos`. */
  ghost predicate IsInfix(needle: string, haystack: string) {
    exists k :: OccursAt(needle, haystack, k)
  }

  predicate DigitsOrMinus(digits: string) {
    forall i :: 0 <= i < |digits| ==> IsDigit(digits[i]) || digits[i] == '-'
  }

  /** Only the first character of a reason can be the 'C' that starts the
      prefix. */
  lemma OnlyFirstCharStartsPrefix(digits: string, k: int)
    requires DigitsOrMinus(digits)
    requires 0 < k < |ReasonPrefix + digits + ReasonSuffix|
    ensures (ReasonPrefix + digits + ReasonSuffix)[k] != 'C'
  {
    var reason := ReasonPrefix + digits + ReasonSuffix;
    if k < |ReasonPrefix| {
      assert reason[k] == ReasonPrefix[k];
    } else if k < |ReasonPrefix| + |digits| {
      assert reason[k] == digits[k - |ReasonPrefix|];
    } else {
      assert reason[k] == ReasonSuffix[k - |ReasonPrefix| - |digits|];
    }
  }

  /** The three characters after the prefix are never "10s". */
  lemma NotSeconds(digits: string)
    requires DigitsOrMinus(digits) && |digits| >= 1
    ensures (ReasonPrefix + digits + ReasonSuffix)[|ReasonPrefix|..|ReasonPrefix| + 3] != "10s"
  {
    var reason := ReasonPrefix + digits + ReasonSuffix;
    var n := |ReasonPrefix|;
    if |digits| == 1 {
      assert reason[n + 1] == ReasonSuffix[0];
    } else if |digits| == 2 {
      assert reason[n + 2] == ReasonSuffix[0];
    } else {
      assert reason[n + 2] == digits[2];
    }
    assert reason[n..n + 3][2] == reason[n + 2] && reason[n..n + 3][1] == reason[n + 1];
  }

  /** No reason the constructor builds mentions a duration in seconds such
      as "Condition not satisfied after 10s": the count is followed by
      " attempts". */
  lemma NoReasonMentionsSeconds(attempts: int)
    ensures !IsInfix(ReasonPrefix + "10s", PollingConditionsException(attempts).What())
  {
    var digits := Decimal(attempts);
    var reason := PollingConditionsException(attempts).What();
    var needle := ReasonPrefix + "10s";
    assert reason == ReasonPrefix + digits + ReasonSuffix;
    if k :| OccursAt(needle, reason, k) {
      assert reason[k] == 'C' by {
        assert reason[k] == reason[k..k + |needle|][0];
      }
      assert DigitsOrMinus(digits);
      if k > 0 {
        OnlyFirstCharStartsPrefix(digits, k);
      }
      assert reason[|ReasonPrefix|..|ReasonPrefix| + 3] == "10s" by {
        assert reason[..|needle|] == needle;
        assert needle[|ReasonPrefix|..] == "10s";
      }
      NotSeconds(digits);
    }
  }
}

/** The retry loop around a duty refresh, with its growing delays (src/services/validator_duty_service.py). */
module Backoff {

  /** One call of `_update_duties`: how long it took, how much longer than asked the sleep after it lasted, its outcome. */
  datatype Attempt = Attempt(duration: real, oversleep: real, succeeds: bool)

  const INITIAL_DELAY := 1.0
  const MAX_DELAY := 10.0

  function Capped(delay: real): real {
    if delay < MAX_DELAY then delay else MAX_DELAY
  }

  /** The delay after failure number `k`, counting from zero. */
  function Delay(k: nat): (d: real)
    ensures 1.0 <= d <= MAX_DELAY
  {
    if k == 0 then INITIAL_DELAY else Capped(Delay(k - 1) * 2.0)
  }

  /** The delays after the first `k` failures together. */
  function Slept(k: nat): (total: real)
    ensures total >= k as real
  {
    if k == 0 then 0.0 else Slept(k - 1) + Delay(k - 1)
  }

  function Power2(k: nat): nat {
    if k == 0 then 1 else 2 * Power2(k - 1)
  }

  lemma {:induction false} DelayClosedForm(k: nat)
    ensures Delay(k) == if k <= 3 then Power2(k) as real else MAX_DELAY
  {
    if k > 0 {
      DelayClosedForm(k - 1);
      if k <= 4 {
        assert Power2(3) == 8 && Power2(2) == 4 && Power2(1) == 2;
      }
    }
  }

  /** Doubling from one second and capped at ten: 1, 3, 7, 15, then ten more for each further failure. */
  lemma {:induction false} SleptClosedForm(k: nat)
    ensures Slept(k) == if k <= 4 then Power2(k) as real - 1.0 else 15.0 + 10.0 * (k - 4) as real
  {
    if k > 0 {
      SleptClosedForm(k - 1);
      DelayClosedForm(k - 1);
      if k <= 5 {
        assert Power2(4) == 16 && Power2(3) == 8 && Power2(2) == 4 && Power2(1) == 2;
      }
    }
  }

  /** When attempt number `k` starts, if the ones before it failed. */
  function ClockAt(start: real, attempt: nat -> Attempt, k: nat): real {
    if k == 0 then start
    else ClockAt(start, attempt, k - 1) + attempt(k - 1).duration + Delay(k - 1) + attempt(k - 1).oversleep
  }

  ghost predicate TimeGoesOn(attempt: nat -> Attempt) {
    forall i :: attempt(i).duration >= 0.0 && attempt(i).oversleep >= 0.0
  }

  /** The time that the first `k` attempts took, with what their sleeps lasted longer than asked. */
  function Busy(attempt: nat -> Attempt, k: nat): real {
    if k == 0 then 0.0 else Busy(attempt, k - 1) + attempt(k - 1).duration + attempt(k - 1).oversleep
  }

  /** Attempt `k` starts after the attempts before it and the delays between them, and no earlier than these alone allow. */
  lemma {:induction false} ClockCoversDelays(start: real, attempt: nat -> Attempt, k: nat)
    requires TimeGoesOn(attempt)
    ensures ClockAt(start, attempt, k) == start + Slept(k) + Busy(attempt, k)
    ensures Busy(attempt, k) >= 0.0
  {
    if k > 0 {
      ClockCoversDelays(start, attempt, k - 1);
    }
  }

  /** Every attempt but the last one failed, and each began within the epoch. */
  ghost predicate Attempted(start: real, epochEnd: real, attempt: nat -> Attempt, attempts: nat) {
    && (forall i: nat :: i < attempts ==> ClockAt(start, attempt, i) < epochEnd)
    && (forall i: nat :: i < attempts - 1 ==> !attempt(i).succeeds)
  }

  /** The loop ends with the first success, or once the epoch is over, and makes every attempt until then. */
  method UpdateDuties(start: real, epochEnd: real, attempt: nat -> Attempt) returns (attempts: nat, succeeded: bool, end: real)
    requires TimeGoesOn(attempt)
    ensures Attempted(start, epochEnd, attempt, attempts)
    ensures succeeded <==> attempts > 0 && attempt(attempts - 1).succeeds
    ensures succeeded ==> end == ClockAt(start, attempt, attempts - 1) + attempt(attempts - 1).duration
    ensures !succeeded ==> end == ClockAt(start, attempt, attempts) >= epochEnd
  {
    var now, delay := start, INITIAL_DELAY;
    attempts := 0;
    while now < epochEnd
      invariant now == ClockAt(start, attempt, attempts) && delay == Delay(attempts)
      invariant Attempted(start, epochEnd, attempt, attempts)
      invariant attempts > 0 ==> !attempt(attempts - 1).succeeds
      decreases epochEnd - now
    {
      var outcome := attempt(attempts);
      attempts := attempts + 1;
      now := now + outcome.duration;
      if outcome.succeeds {
        return attempts, true, now;
      }
      now := now + delay + outcome.oversleep;
      delay := Capped(delay * 2.0);
    }
    return attempts, false, now;
  }

  /** With `left` seconds to go, at most as many attempts start as the delays between them allow. */
  lemma AttemptsBounded(start: real, left: real, attempt: nat -> Attempt, attempts: nat)
    requires TimeGoesOn(attempt) && attempts > 0 && Attempted(start, start + left, attempt, attempts)
    ensures Slept(attempts - 1) < left
    ensures attempts as real < left + 1.0
    ensures attempts >= 5 ==> 10.0 * (attempts as real) < left + 35.0
  {
    ClockCoversDelays(start, attempt, attempts - 1);
    SleptClosedForm(attempts - 1);
  }
}

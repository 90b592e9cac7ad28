/**
 The client's retry of its first connection: doubling pauses within a budget, after which it
 falls back to downloading without the server. Durations are in nanoseconds.
 */
module ConnectRetry {
  import opened Prelude

  const MS: nat := 1_000_000
  const FIRST_BACKOFF: nat := 250 * MS
  const MAX_BACKOFF: nat := 2000 * MS

  /** What an attempt comes to; `delay` is the time it takes and `oversleep` how much longer than asked the pause after it lasts. */
  datatype Attempt = Attempt(outcome: Outcome, delay: nat, oversleep: nat)

  datatype Outcome = Connected | TransportError | OtherError

  function Backoff(k: nat): nat {
    if k == 0 then FIRST_BACKOFF else Min(2 * Backoff(k - 1), MAX_BACKOFF)
  }

  function TotalBackoff(k: nat): nat {
    if k == 0 then 0 else TotalBackoff(k - 1) + Backoff(k - 1)
  }

  lemma {:induction false} BackoffValues(k: nat)
    ensures 0 < Backoff(k) <= MAX_BACKOFF && (k >= 3 ==> Backoff(k) == MAX_BACKOFF)
  {
    if k > 0 {
      BackoffValues(k - 1);
      if k == 3 {
        assert Backoff(1) == 500 * MS && Backoff(2) == 1000 * MS;
      }
    }
  }

  lemma {:induction false} TotalBackoffValues(k: nat)
    ensures k <= 3 ==> TotalBackoff(k) <= 1750 * MS
    ensures k >= 3 ==> TotalBackoff(k) == 1750 * MS + (k - 3) * MAX_BACKOFF
  {
    if k <= 3 {
      assert TotalBackoff(1) == 250 * MS;
      assert TotalBackoff(2) == 750 * MS;
      assert Backoff(2) == 1000 * MS;
      assert TotalBackoff(3) == 1750 * MS;
    } else {
      TotalBackoffValues(k - 1);
      BackoffValues(k - 1);
    }
  }

  /** The most attempts a budget allows. */
  function MaxAttempts(budget: nat): nat {
    4 + CeilDiv(Max(0, budget - 1750 * MS), MAX_BACKOFF)
  }

  lemma {:induction false} MulMonotone(a: int, b: int, d: nat)
    ensures a <= b ==> a * d <= b * d
  {
  }

  lemma {:induction false} CeilAbove(n: nat, d: nat, k: nat)
    requires d > 0 && k * d < n
    ensures k < CeilDiv(n, d)
  {
  }

  /** If the budget was not used up by the pauses before the last one, the attempts are within the bound. */
  lemma {:induction false} AttemptsWithin(budget: nat, pauses: nat)
    requires pauses > 0 ==> TotalBackoff(pauses - 1) < budget
    ensures pauses + 1 <= MaxAttempts(budget)
  {
    if pauses > 3 {
      TotalBackoffValues(pauses - 1);
      CeilAbove(budget - 1750 * MS, MAX_BACKOFF, pauses - 4);
    }
  }

  function Sum(s: seq<nat>): nat {
    if s == [] then 0 else Sum(s[..|s| - 1]) + s[|s| - 1]
  }

  lemma {:induction false} SumSnoc(s: seq<nat>, x: nat)
    ensures Sum(s + [x]) == Sum(s) + x
  {
  }

  /** Time spent in the first `n` attempts and in sleeping longer than asked after them. */
  function Spent(attempt: nat -> Attempt, n: nat): nat {
    if n == 0 then 0 else Spent(attempt, n - 1) + attempt(n - 1).delay + attempt(n - 1).oversleep
  }

  /** The pauses so far fit the budget, and were full ones as long as it is not used up. */
  ghost predicate Paced(budget: nat, pauses: seq<nat>, elapsed: nat) {
    && Sum(pauses) <= elapsed && Sum(pauses) <= budget && Sum(pauses) <= TotalBackoff(|pauses|)
    && (elapsed < budget ==> Sum(pauses) == TotalBackoff(|pauses|))
    && (|pauses| > 0 ==> TotalBackoff(|pauses| - 1) < budget)
  }

  lemma {:induction false} OnePauseMore(budget: nat, pauses: seq<nat>, before: nat, elapsed: nat, oversleep: nat)
    requires Paced(budget, pauses, before) && before <= elapsed < budget
    ensures var pause := Min(Backoff(|pauses|), budget - elapsed);
            && pause > 0 && Sum(pauses + [pause]) == Sum(pauses) + pause
            && Paced(budget, pauses + [pause], elapsed + pause + oversleep)
  {
    BackoffValues(|pauses|);
    SumSnoc(pauses, Min(Backoff(|pauses|), budget - elapsed));
  }

  lemma {:induction false} CeilBelow(n: nat, d: nat, k: nat)
    requires d > 0 && k * d >= n
    ensures CeilDiv(n, d) <= k
  {
    var q := CeilDiv(n, d);
    assert (q - 1) * d < n;
    MulMonotone(k, q - 1, d);
  }

  lemma {:induction false} ExactAttempts(budget: nat, tries: nat)
    requires budget > 1750 * MS && 0 < tries <= MaxAttempts(budget) && TotalBackoff(tries - 1) >= budget
    ensures tries == MaxAttempts(budget)
  {
    TotalBackoffValues(tries - 1);
    CeilBelow(budget - 1750 * MS, MAX_BACKOFF, tries - 4);
  }

  /** A server that never answers, and refuses at once. */
  ghost predicate Silent(attempt: nat -> Attempt, n: nat) {
    forall k | 0 <= k < n :: attempt(k) == Attempt(TransportError, 0, 0)
  }

  lemma {:induction false} SilenceCostsNothing(attempt: nat -> Attempt, n: nat)
    requires Silent(attempt, n)
    ensures Spent(attempt, n) == 0
  {
    if n > 0 {
      SilenceCostsNothing(attempt, n - 1);
    }
  }

  /** Against a silent server the budget is used up by the pauses alone, so the attempts are exactly as many as it takes. */
  lemma {:induction false} SilentAttempts(budget: nat, attempt: nat -> Attempt, tries: nat, pauses: seq<nat>, elapsed: nat)
    requires tries > 0 && Silent(attempt, tries) && elapsed >= budget && tries <= MaxAttempts(budget)
    requires Sum(pauses) <= TotalBackoff(tries - 1) && elapsed == Sum(pauses) + Spent(attempt, tries - 1) + attempt(tries - 1).delay
    ensures TotalBackoff(tries - 1) >= budget
    ensures budget > 1750 * MS ==> tries == MaxAttempts(budget)
  {
    SilenceCostsNothing(attempt, tries - 1);
    if budget > 1750 * MS {
      ExactAttempts(budget, tries);
    }
  }

  /** The retry loop. `tries` counts the attempts, of which `attempts` is the 32-bit count the log shows. */
  method Connect(budget: nat, endpointParses: bool, attempt: nat -> Attempt)
    returns (outcome: Outcome, attempts: nat, tries: nat, pauses: seq<nat>, elapsed: nat)
    ensures tries > 0 && attempts == Min(tries, U32_MAX) && |pauses| == tries - 1
    // every attempt but the last failed in a way worth retrying, and the last one decides
    ensures outcome == attempt(tries - 1).outcome
    ensures forall k | 0 <= k < tries - 1 :: endpointParses && attempt(k).outcome == TransportError
    // a failure worth retrying is given up on only once the budget has elapsed
    ensures outcome == TransportError && endpointParses ==> elapsed >= budget
    // the pauses stay within the budget, and the attempts within the bound
    ensures Sum(pauses) <= budget
    ensures tries <= MaxAttempts(budget)
    // all the time that passed is accounted for
    ensures Sum(pauses) <= TotalBackoff(tries - 1)
    ensures elapsed == Sum(pauses) + Spent(attempt, tries - 1) + attempt(tries - 1).delay
    // against a silent server: as many attempts as the pauses need to use up the budget, no fewer and no more
    ensures tries > 1 ==> TotalBackoff(tries - 2) < budget
    ensures endpointParses && Silent(attempt, tries) ==> TotalBackoff(tries - 1) >= budget
    ensures endpointParses && Silent(attempt, tries) && budget > 1750 * MS ==> tries == MaxAttempts(budget)
  {
    elapsed, pauses, attempts, tries := 0, [], 0, 0;
    var backoff := FIRST_BACKOFF;
    while true
      invariant |pauses| == tries && attempts == Min(tries, U32_MAX) && backoff == Backoff(tries)
      invariant forall k | 0 <= k < tries :: endpointParses && attempt(k).outcome == TransportError
      invariant Paced(budget, pauses, elapsed)
      invariant elapsed == Sum(pauses) + Spent(attempt, tries)
      decreases if elapsed < budget then budget - elapsed else 0
    {
      AttemptsWithin(budget, tries);
      ghost var before := elapsed;
      attempts := Min(attempts + 1, U32_MAX);
      tries := tries + 1;
      var now := attempt(tries - 1);
      elapsed := elapsed + now.delay;
      outcome := now.outcome;
      if outcome == Connected {
        break;
      }
      var remaining := Max(0, budget - elapsed);
      var retryable := endpointParses && outcome == TransportError;
      if !retryable || remaining == 0 {
        break;
      }
      OnePauseMore(budget, pauses, before, elapsed, now.oversleep);
      var pause := Min(backoff, remaining);
      pauses := pauses + [pause];
      elapsed := elapsed + pause + now.oversleep;
      backoff := Min(2 * backoff, MAX_BACKOFF);
    }
    if endpointParses && Silent(attempt, tries) {
      SilentAttempts(budget, attempt, tries, pauses, elapsed);
    }
  }
}

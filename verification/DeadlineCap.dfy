/** When `deadline_s` caps the total wall clock of a call: it caps when attempts start. */
module DeadlineCap {
  import opened Wrappers
  import opened Retry
  import opened RetryBounds

  /** Calls of at most `limit` that fail, if they fail, with errors of the hierarchy. */
  ghost predicate Friendly(env: Environment<int>, p: Policy, limit: real) {
    Sane(env, p) && CallsWithin(env, limit) && AllWrapped(env)
  }

  ghost predicate WithinDeadline(env: Environment<int>, p: Policy, start: real)
    requires p.deadline.Some?
  {
    Specified(env, p, true, start).finish - start <= p.deadline.value
  }

  /** When attempt `k` starts if the environment takes its worst until `target` and no time after it. */
  function StartOf(p: Policy, limit: real, target: real, k: nat): real {
    Min(WorstBefore(p, limit, k), target)
  }

  /** The first `n` calls fail at the worst pace that reaches `target`; the next takes the limit to succeed. */
  function PacedAttempt(p: Policy, limit: real, target: real, n: nat, k: nat): Attempt<int> {
    if k < n then
      var left := target - StartOf(p, limit, target, k);
      var took := Min(limit, left);
      Attempt(Wrapped(UnavailableError("down")), took, Min(Ceiling(p, k), left - took), None)
    else Attempt(Value(0), limit, 0.0, None)
  }

  function Paced(p: Policy, limit: real, target: real, n: nat): (env: Environment<int>)
    ensures forall k: nat :: env(k) == PacedAttempt(p, limit, target, n, k)
  {
    (k: nat) => PacedAttempt(p, limit, target, n, k)
  }

  lemma PacedAttemptBounds(p: Policy, limit: real, target: real, n: nat, k: nat)
    requires p.Valid() && limit >= 0.0 && target >= 0.0
    ensures var a := PacedAttempt(p, limit, target, n, k);
            0.0 <= a.took <= limit && 0.0 <= a.draw <= Ceiling(p, k) && !a.outcome.Unwrapped?
    ensures k < n ==>
      var a := PacedAttempt(p, limit, target, n, k);
      StartOf(p, limit, target, k) + a.took + a.draw == StartOf(p, limit, target, k + 1) <= target
  {
  }

  lemma PacedIsFriendly(p: Policy, limit: real, target: real, n: nat)
    requires p.Valid() && limit >= 0.0 && target >= 0.0
    ensures Friendly(Paced(p, limit, target, n), p, limit)
  {
    forall k: nat
      ensures var a := PacedAttempt(p, limit, target, n, k);
              0.0 <= a.took <= limit && 0.0 <= a.draw <= Ceiling(p, k) && !a.outcome.Unwrapped?
    {
      PacedAttemptBounds(p, limit, target, n, k);
    }
  }

  /** A temporary failure and its whole sleep fit before the deadline. */
  lemma RetriesInTime(env: Environment<int>, p: Policy, attempt: nat, start: real, now: real)
    requires attempt < p.maxRetries && p.deadline.Some?
    requires env(attempt).outcome.Wrapped? && env(attempt).outcome.e.Retryable()
    requires env(attempt).draw >= 0.0 && env(attempt).cut.None?
    requires now + env(attempt).took + env(attempt).draw < start + p.deadline.value
    ensures var one := One(env, p, attempt, start, now);
            one.Again? && one.now == now + env(attempt).took + env(attempt).draw
  {
  }

  /** The paced run makes every attempt, and its last one starts at the target. */
  lemma {:induction false} PacedRun(
    p: Policy, limit: real, target: real, attempt: nat, start: real, now: real, last: Option<Error>)
    requires p.Valid() && limit >= 0.0 && attempt <= p.maxRetries && p.deadline.Some?
    requires 0.0 <= target < p.deadline.value && target <= WorstBefore(p, limit, p.maxRetries)
    requires now == start + StartOf(p, limit, target, attempt)
    ensures Drive(Paced(p, limit, target, p.maxRetries), p, attempt, start, now, last).finish
         == start + target + limit
    decreases p.maxRetries - attempt
  {
    var env := Paced(p, limit, target, p.maxRetries);
    if attempt < p.maxRetries {
      PacedAttemptBounds(p, limit, target, p.maxRetries, attempt);
      RetriesInTime(env, p, attempt, start, now);
      var one := One(env, p, attempt, start, now);
      PacedRun(p, limit, target, attempt + 1, start, one.now, Some(one.e));
    } else {
      LastAttempt(env, p, attempt, start, now);
    }
  }

  lemma LastAttempt(env: Environment<int>, p: Policy, attempt: nat, start: real, now: real)
    requires env(attempt).outcome.Value?
    ensures var one := One(env, p, attempt, start, now);
            one.Stop? && one.run.finish == now + env(attempt).took
  {
  }

  /** A run that ends after the deadline, whenever the worst total exceeds it. */
  lemma LateRun(p: Policy, start: real, limit: real) returns (env: Environment<int>)
    requires p.Valid() && p.deadline.Some? && p.maxRetries >= 0
    requires limit > 0.0 && p.deadline.value >= 0.0 && Worst(p, limit) > p.deadline.value
    ensures Friendly(env, p, limit) && !WithinDeadline(env, p, start)
  {
    var d, n := p.deadline.value, p.maxRetries;
    var w := WorstBefore(p, limit, n);
    WorstGrows(p, limit, 0, n);
    if d == 0.0 {
      env := Paced(p, limit, 0.0, 0);
      PacedIsFriendly(p, limit, 0.0, 0);
      assert One(env, p, 0, start, start).run.finish == start + limit;
    } else {
      var target := if w < d then w else Max(d - limit / 2.0, d / 2.0);
      assert 0.0 <= target < d && target <= w && target + limit > d;
      env := Paced(p, limit, target, n);
      PacedIsFriendly(p, limit, target, n);
      PacedRun(p, limit, target, 0, start, start, None);
    }
  }

  // ----- Unwrapped exceptions, after which the driver sleeps without a clamp -----------------------------

  /** Calls that take no time and fail unwrapped: sleeps up to `target`, then one whole ceiling after call `n`. */
  function DozingAttempt(p: Policy, target: real, n: nat, k: nat): Attempt<int> {
    var draw := if k < n then Min(Ceiling(p, k), target - StartOf(p, 0.0, target, k)) else Ceiling(p, k);
    Attempt(Unwrapped("down"), 0.0, draw, None)
  }

  function Dozing(p: Policy, target: real, n: nat): (env: Environment<int>)
    ensures forall k: nat :: env(k) == DozingAttempt(p, target, n, k)
  {
    (k: nat) => DozingAttempt(p, target, n, k)
  }

  lemma DozingIsSane(p: Policy, target: real, n: nat)
    requires p.Valid() && target >= 0.0
    ensures Sane(Dozing(p, target, n), p) && CallsWithin(Dozing(p, target, n), 0.0)
  {
    forall k: nat
      ensures var a := DozingAttempt(p, target, n, k); a.took == 0.0 && 0.0 <= a.draw <= Ceiling(p, k)
    {
    }
  }

  /** An unwrapped failure that took no time is followed by its whole sleep. */
  lemma DozesOff(env: Environment<int>, p: Policy, attempt: nat, start: real, now: real)
    requires attempt < p.maxRetries && env(attempt).outcome.Unwrapped? && env(attempt).took == 0.0
    requires env(attempt).cut.None?
    ensures var one := One(env, p, attempt, start, now); one.Again? && one.now == now + env(attempt).draw
  {
  }

  /** The dozing run reaches call `n` at the target and ends with the sleep after it. */
  lemma {:induction false} DozingRun(
    p: Policy, target: real, n: nat, attempt: nat, start: real, now: real, last: Option<Error>)
    requires p.Valid() && p.deadline.Some? && attempt <= n < p.maxRetries
    requires 0.0 <= target <= WorstBefore(p, 0.0, n) && (n > 0 ==> target < p.deadline.value)
    requires target + Ceiling(p, n) > p.deadline.value
    requires now == start + StartOf(p, 0.0, target, attempt)
    ensures Drive(Dozing(p, target, n), p, attempt, start, now, last).finish == start + target + Ceiling(p, n)
    decreases n - attempt
  {
    var env := Dozing(p, target, n);
    DozesOff(env, p, attempt, start, now);
    var one := One(env, p, attempt, start, now);
    if attempt < n {
      assert one.now == start + StartOf(p, 0.0, target, attempt + 1);
      DozingRun(p, target, n, attempt + 1, start, one.now, Some(one.e));
    } else {
      assert OutOfTime(p, start, one.now);
    }
  }

  lemma {:induction false} NoSleepAtAll(p: Policy, k: nat)
    requires p.Valid() && Ceiling(p, 0) == 0.0
    ensures Ceiling(p, k) == 0.0 && WorstBefore(p, 0.0, k) == 0.0
  {
    if k > 0 {
      NoSleepAtAll(p, k - 1);
      DoubledZero(p.baseDelay, k);
    }
  }

  lemma {:induction false} DoubledZero(base: real, k: nat)
    requires base >= 0.0
    ensures base == 0.0 ==> Doubled(base, k) == 0.0
    ensures Doubled(base, 0) == base
  {
    if k > 0 { DoubledZero(base, k - 1); }
  }

  /** The first sleep with which calls that take no time outlast the deadline. */
  lemma {:induction false} FirstLateSleep(p: Policy, m: nat) returns (n: nat)
    requires p.Valid() && p.deadline.Some? && 0.0 <= p.deadline.value < WorstBefore(p, 0.0, m)
    ensures n < m && WorstBefore(p, 0.0, n) <= p.deadline.value < WorstBefore(p, 0.0, n) + Ceiling(p, n)
  {
    n := m - 1;
    if p.deadline.value < WorstBefore(p, 0.0, n) {
      n := FirstLateSleep(p, n);
    }
  }

  /** Calls that take no time at all end after the deadline, whenever the sleeps together exceed it. */
  lemma LateSleep(p: Policy, start: real) returns (env: Environment<int>)
    requires p.Valid() && p.deadline.Some? && p.maxRetries >= 0
    requires 0.0 <= p.deadline.value < Worst(p, 0.0)
    ensures Sane(env, p) && CallsWithin(env, 0.0) && !WithinDeadline(env, p, start)
  {
    var d := p.deadline.value;
    var n := FirstLateSleep(p, p.maxRetries);
    var w, c := WorstBefore(p, 0.0, n), Ceiling(p, n);
    WorstGrows(p, 0.0, 0, n);
    if d == 0.0 && n > 0 {
      if Ceiling(p, 0) == 0.0 { NoSleepAtAll(p, n); }
      WorstGrows(p, 0.0, 1, n);
    }
    var target := if w < d || n == 0 then w else Max(d - c / 2.0, d / 2.0);
    env := Dozing(p, target, n);
    DozingIsSane(p, target, n);
    DozingRun(p, target, n, 0, start, start, None);
  }

  /**
   * The deadline caps the total of every run, unwrapped exceptions included, exactly when it is not
   * negative and no attempt is made or calls and sleeps together could not outlast it anyway.
   */
  lemma DeadlineCapsTotalExactly(p: Policy, start: real, limit: real)
    requires p.Valid() && p.deadline.Some? && limit >= 0.0
    ensures (forall env: Environment<int> :: Sane(env, p) && CallsWithin(env, limit) ==> WithinDeadline(env, p, start))
       <==> p.deadline.value >= 0.0 && (p.maxRetries < 0 || Worst(p, limit) <= p.deadline.value)
  {
    var d := p.deadline.value;
    if d < 0.0 {
      var env := Paced(p, limit, 0.0, 0);
      PacedIsFriendly(p, limit, 0.0, 0);
      TotalTime(env, p, start, limit);
      assert !WithinDeadline(env, p, start);
    } else if p.maxRetries < 0 || Worst(p, limit) <= d {
      forall env: Environment<int> | Sane(env, p) && CallsWithin(env, limit)
        ensures WithinDeadline(env, p, start)
      {
        TotalTime(env, p, start, limit);
      }
    } else if limit == 0.0 {
      var env := LateSleep(p, start);
    } else {
      var env := LateRun(p, start, limit);
    }
  }

  /** With errors of the hierarchy only, every sleep is clamped, and calls that take no time stay within. */
  lemma DeadlineCapsFriendlyTotalExactly(p: Policy, start: real, limit: real)
    requires p.Valid() && p.deadline.Some? && limit >= 0.0
    ensures (forall env: Environment<int> :: Friendly(env, p, limit) ==> WithinDeadline(env, p, start))
       <==> p.deadline.value >= 0.0
            && (p.maxRetries < 0 || limit == 0.0 || Worst(p, limit) <= p.deadline.value)
  {
    var d := p.deadline.value;
    if d < 0.0 {
      var env := Paced(p, limit, 0.0, 0);
      PacedIsFriendly(p, limit, 0.0, 0);
      TotalTime(env, p, start, limit);
      assert !WithinDeadline(env, p, start);
    } else if p.maxRetries < 0 || limit == 0.0 || Worst(p, limit) <= d {
      forall env: Environment<int> | Friendly(env, p, limit)
        ensures WithinDeadline(env, p, start)
      {
        TotalTime(env, p, start, limit);
      }
    } else {
      var env := LateRun(p, start, limit);
    }
  }

  /** ai-service's defaults, three retries of calls of up to 30 seconds, can run past the 45-second deadline. */
  lemma DefaultDeadlineIsNotACap(start: real)
    ensures var p := Policy(3, 0.5, 8.0, Some(45.0));
            exists env: Environment<int> :: Friendly(env, p, 30.0) && !WithinDeadline(env, p, start)
  {
    var p := Policy(3, 0.5, 8.0, Some(45.0));
    assert WorstBefore(p, 30.0, 1) >= 30.0;
    WorstGrows(p, 30.0, 1, 3);
    var env := LateRun(p, start, 30.0);
  }
}

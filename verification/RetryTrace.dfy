/** What a run of the retry driver is, event by event. */
module RetryTrace {
  import opened Wrappers
  import Breaker
  import opened Retry

  // Every event of a run stands at its own place: call `i` at `3 * i`, its record behind it, and the sleep
  // after it behind that. The predicates speak of the trace, the environment and the policy alone.

  /** The sleep after a call that failed and ended at `until`; only wrapped errors are held to the deadline. */
  function Nap<V>(a: Attempt<V>, p: Policy, start: real, until: real): real {
    if a.outcome.Wrapped? && p.deadline.Some? && p.deadline.value - (until - start) < a.draw
    then p.deadline.value - (until - start)
    else a.draw
  }

  /** The call failed, and not for good. */
  predicate FailedForNow<V>(o: Outcome<V>) {
    || o.Unwrapped?
    || (o.Wrapped? && (o.e.OtherError? ==> o.e.retryable))
  }

  /** No sleep follows a call that ended at `until`: it was the last attempt, or its wrapped error came too late. */
  predicate Final<V>(a: Attempt<V>, p: Policy, attempt: nat, start: real, until: real) {
    attempt >= p.maxRetries || (a.outcome.Wrapped? && p.deadline.Some? && until - start >= p.deadline.value)
  }

  predicate Cut<V>(a: Attempt<V>, nap: real) { a.cut.Some? && a.cut.value <= nap }

  predicate PastDeadline(p: Policy, start: real, now: real) {
    p.deadline.Some? && now - start >= p.deadline.value
  }

  /** Call `i` of a trace whose first call makes attempt `k` at time `now`. */
  ghost predicate CallStands<V>(env: Environment<V>, k: nat, now: real, trace: seq<Event<V>>, i: nat) {
    && 3 * i < |trace| && trace[3 * i].Called?
    && trace[3 * i].outcome == env(k + i).outcome
    && trace[3 * i].until == trace[3 * i].from + env(k + i).took
    && if i == 0 then trace[0].from == now
       else trace[3 * i - 1].Slept? && trace[3 * i].from == trace[3 * i - 1].from + trace[3 * i - 1].delay
  }

  ghost predicate RecordStands<V>(trace: seq<Event<V>>, i: nat)
    requires 3 * i < |trace| && trace[3 * i].Called?
  {
    && 3 * i + 1 < |trace|
    && trace[3 * i + 1] == if trace[3 * i].outcome.Value? then RecordedSuccess(trace[3 * i].until)
                           else RecordedFailure(trace[3 * i].until)
  }

  ghost predicate SleepStands<V>(trace: seq<Event<V>>, i: nat, delay: real)
    requires 3 * i < |trace| && trace[3 * i].Called?
  {
    3 * i + 2 < |trace| && trace[3 * i + 2] == Slept(trace[3 * i].until, delay)
  }

  /** Call `i` failed for now, the whole sleep after it was slept, and the deadline had not passed then. */
  ghost predicate GoesOn<V>(
    env: Environment<V>, p: Policy, k: nat, start: real, now: real, trace: seq<Event<V>>, i: nat)
  {
    && CallStands(env, k, now, trace, i) && RecordStands(trace, i)
    && var a, until := env(k + i), trace[3 * i].until;
       var nap := Nap(a, p, start, until);
       && FailedForNow(a.outcome) && !Final(a, p, k + i, start, until)
       && !Cut(a, nap) && SleepStands(trace, i, nap) && !PastDeadline(p, start, until + nap)
  }

  /** What is raised after the error `e`: a timeout or an outage itself, and an outage for any other. */
  predicate GivesUp<V>(ending: Ending<V>, e: Error) {
    ending.Raised? && if e.TimeoutError? || e.UnavailableError? then ending.e == e else ending.e.UnavailableError?
  }

  /** The error a failed call leaves behind. */
  function ErrorOf<V>(o: Outcome<V>): Error
    requires o.Wrapped? || o.Unwrapped?
  {
    if o.Wrapped? then o.e else UnavailableError(o.message)
  }

  /** Call `i` is the last, and the run ends after it as its outcome, the policy and the clock say. */
  ghost predicate EndsAt<V>(
    env: Environment<V>, p: Policy, k: nat, start: real, now: real, r: Run<V>, i: nat)
  {
    && CallStands(env, k, now, r.trace, i)
    && var a, until := env(k + i), r.trace[3 * i].until;
       var nap := Nap(a, p, start, until);
       match a.outcome
       case Cancelled => |r.trace| == 3 * i + 1 && r.ending == Interrupted && r.finish == until
       case Value(v) =>
         |r.trace| == 3 * i + 2 && RecordStands(r.trace, i) && r.ending == Returned(v) && r.finish == until
       case _ =>
         && RecordStands(r.trace, i)
         && if !FailedForNow(a.outcome) then
              |r.trace| == 3 * i + 2 && r.ending == Raised(ErrorOf(a.outcome)) && r.finish == until
            else if Final(a, p, k + i, start, until) then
              |r.trace| == 3 * i + 2 && GivesUp(r.ending, ErrorOf(a.outcome)) && r.finish == until
            else if Cut(a, nap) then
              && |r.trace| == 3 * i + 3 && SleepStands(r.trace, i, a.cut.value)
              && r.ending == Interrupted && r.finish == until + a.cut.value
            else
              && |r.trace| == 3 * i + 3 && SleepStands(r.trace, i, nap)
              && PastDeadline(p, start, until + nap)
              && GivesUp(r.ending, ErrorOf(a.outcome)) && r.finish == until + nap
  }

  /** A run of `n` calls from attempt `k` on. */
  ghost predicate Lawful<V>(env: Environment<V>, p: Policy, k: nat, start: real, now: real, r: Run<V>, n: nat) {
    && n > 0
    && (forall i: nat :: i < n - 1 ==> GoesOn(env, p, k, start, now, r.trace, i))
    && EndsAt(env, p, k, start, now, r, n - 1)
  }

  // ----- The driver's runs are those, and no others -------------------------------------------------------

  /** One attempt: either the whole run, or three events before the rest. */
  lemma OneIsLawful<V>(env: Environment<V>, p: Policy, k: nat, start: real, now: real)
    requires k <= p.maxRetries
    ensures var one := One(env, p, k, start, now);
            if one.Stop? then EndsAt(env, p, k, start, now, one.run, 0)
            else
              && |one.events| == 3 && k < p.maxRetries
              && FailedForNow(env(k).outcome) && one.e == ErrorOf(env(k).outcome)
              && CallStands(env, k, now, one.events, 0) && RecordStands(one.events, 0)
              && var until := one.events[0].until; var nap := Nap(env(k), p, start, until);
                 && !Final(env(k), p, k, start, until) && !Cut(env(k), nap)
                 && SleepStands(one.events, 0, nap) && one.now == until + nap
  {
  }

  lemma LateAfterOne<V>(env: Environment<V>, p: Policy, k: nat, start: real, now: real)
    requires k < p.maxRetries && One(env, p, k, start, now).Again?
    ensures var one := One(env, p, k, start, now);
            OutOfTime(p, start, one.now) ==>
              Lawful(env, p, k, start, now, Run(one.events + [], Raised(Exhausted(Some(one.e))), one.now), 1)
  {
    OneIsLawful(env, p, k, start, now);
    var one := One(env, p, k, start, now);
    assert one.events + [] == one.events;
    hide One, Nap;
  }

  lemma GoesOnFirst<V>(env: Environment<V>, p: Policy, k: nat, start: real, now: real, rest: seq<Event<V>>)
    requires k < p.maxRetries && One(env, p, k, start, now).Again?
    requires !OutOfTime(p, start, One(env, p, k, start, now).now)
    ensures GoesOn(env, p, k, start, now, One(env, p, k, start, now).events + rest, 0)
  {
    OneIsLawful(env, p, k, start, now);
    var events := One(env, p, k, start, now).events;
    hide One, Nap, FailedForNow, Final, Cut;
    assert forall j :: 0 <= j < 3 ==> (events + rest)[j] == events[j];
  }

  /** Events of a later call, three places further back. */
  lemma CallShifts<V>(env: Environment<V>, k: nat, now: real, events: seq<Event<V>>, next: real, rest: seq<Event<V>>, i: nat)
    requires |events| == 3 && events[2].Slept? && next == events[2].from + events[2].delay
    requires CallStands(env, k + 1, next, rest, i)
    ensures CallStands(env, k, now, events + rest, i + 1)
    ensures RecordStands(rest, i) ==> RecordStands(events + rest, i + 1)
    ensures 3 * i + 2 < |rest| ==> (events + rest)[3 * (i + 1) + 2] == rest[3 * i + 2]
    ensures (events + rest)[3 * (i + 1)] == rest[3 * i]
  {
    var t := events + rest;
    assert t[3 * i + 3] == rest[3 * i];
    assert t[3 * i + 2] == if i == 0 then events[2] else rest[3 * i - 1];
    assert 3 * i + 1 < |rest| ==> t[3 * i + 4] == rest[3 * i + 1];
    assert 3 * i + 2 < |rest| ==> t[3 * i + 5] == rest[3 * i + 2];
  }

  lemma GoesOnLater<V>(
    env: Environment<V>, p: Policy, k: nat, start: real, now: real, events: seq<Event<V>>, next: real,
    rest: seq<Event<V>>, i: nat)
    requires |events| == 3 && events[2].Slept? && next == events[2].from + events[2].delay
    requires GoesOn(env, p, k + 1, start, next, rest, i)
    ensures GoesOn(env, p, k, start, now, events + rest, i + 1)
  {
    hide CallStands, RecordStands, Nap, FailedForNow, Final, Cut, PastDeadline;
    CallShifts(env, k, now, events, next, rest, i);
  }

  lemma EndsAtLater<V>(
    env: Environment<V>, p: Policy, k: nat, start: real, now: real, events: seq<Event<V>>, next: real,
    rest: Run<V>, i: nat)
    requires |events| == 3 && events[2].Slept? && next == events[2].from + events[2].delay
    requires EndsAt(env, p, k + 1, start, next, rest, i)
    ensures EndsAt(env, p, k, start, now, rest.After(events), i + 1)
  {
    hide CallStands, RecordStands, Nap, FailedForNow, Final, Cut, PastDeadline, GivesUp, ErrorOf;
    CallShifts(env, k, now, events, next, rest.trace, i);
  }

  lemma LawfulLater<V>(
    env: Environment<V>, p: Policy, k: nat, start: real, now: real, rest: Run<V>, n: nat)
    requires k < p.maxRetries && One(env, p, k, start, now).Again?
    requires !OutOfTime(p, start, One(env, p, k, start, now).now)
    requires Lawful(env, p, k + 1, start, One(env, p, k, start, now).now, rest, n)
    ensures Lawful(env, p, k, start, now, rest.After(One(env, p, k, start, now).events), n + 1)
  {
    OneIsLawful(env, p, k, start, now);
    GoesOnFirst(env, p, k, start, now, rest.trace);
    var one := One(env, p, k, start, now);
    hide One, GoesOn, EndsAt, CallStands, RecordStands, Nap, FailedForNow, Final, Cut;
    forall i: nat | 0 < i < n
      ensures GoesOn(env, p, k, start, now, rest.After(one.events).trace, i)
    {
      GoesOnLater(env, p, k, start, now, one.events, one.now, rest.trace, i - 1);
    }
    EndsAtLater(env, p, k, start, now, one.events, one.now, rest, n - 1);
  }

  lemma DriveIs<V>(env: Environment<V>, p: Policy, k: nat, start: real, now: real, last: Option<Error>)
    requires k <= p.maxRetries && (k == 0 || !OutOfTime(p, start, now))
    ensures var one := One(env, p, k, start, now);
            Drive(env, p, k, start, now, last)
            == if one.Stop? then one.run else Drive(env, p, k + 1, start, one.now, Some(one.e)).After(one.events)
    ensures var one := One(env, p, k, start, now);
            one.Again? ==>
              && k < p.maxRetries
              && (OutOfTime(p, start, one.now) ==>
                    Drive(env, p, k + 1, start, one.now, Some(one.e)) == Run([], Raised(Exhausted(Some(one.e))), one.now))
  {
  }

  lemma {:induction false} DriveIsLawful<V>(
    env: Environment<V>, p: Policy, k: nat, start: real, now: real, last: Option<Error>) returns (n: nat)
    requires k <= p.maxRetries && (k == 0 || !OutOfTime(p, start, now))
    ensures Lawful(env, p, k, start, now, Drive(env, p, k, start, now, last), n) && n <= p.maxRetries + 1 - k
    decreases p.maxRetries - k
  {
    hide *;
    DriveIs(env, p, k, start, now, last);
    OneIsLawful(env, p, k, start, now);
    var one := One(env, p, k, start, now);
    if one.Stop? {
      n := 1;
      OneCall(env, p, k, start, now, one.run);
    } else if OutOfTime(p, start, one.now) {
      n := 1;
      LateAfterOne(env, p, k, start, now);
      AfterIs(Drive(env, p, k + 1, start, one.now, Some(one.e)), one.events);
    } else {
      var m := DriveIsLawful(env, p, k + 1, start, one.now, Some(one.e));
      n := m + 1;
      LawfulLater(env, p, k, start, now, Drive(env, p, k + 1, start, one.now, Some(one.e)), m);
    }
  }

  lemma OneCall<V>(env: Environment<V>, p: Policy, k: nat, start: real, now: real, r: Run<V>)
    requires EndsAt(env, p, k, start, now, r, 0)
    ensures Lawful(env, p, k, start, now, r, 1)
  {
    hide EndsAt, GoesOn;
  }

  lemma AfterIs<V>(r: Run<V>, events: seq<Event<V>>)
    ensures r.After(events) == Run(events + r.trace, r.ending, r.finish)
  {
  }

  /**
   * Every admitted run is lawful: each event is where the environment, the policy and the clock put it, and
   * the run ends as its last call, the policy and the clock say. Without an attempt it raises an outage at once.
   */
  lemma RunIsLawful<V>(env: Environment<V>, p: Policy, start: real) returns (n: nat)
    ensures var r := Specified(env, p, true, start);
            if p.maxRetries < 0 then
              n == 0 && r.trace == [] && r.ending.Raised? && r.ending.e.UnavailableError? && r.finish == start
            else Lawful(env, p, 0, start, start, r, n) && n <= p.maxRetries + 1
  {
    if p.maxRetries < 0 {
      n := 0;
    } else {
      hide One, Lawful, Drive;
      n := DriveIsLawful(env, p, 0, start, start, None);
    }
  }

  // ----- Lawful runs have one trace -----------------------------------------------------------------------

  lemma {:induction false} SameCalls<V>(
    env: Environment<V>, p: Policy, k: nat, start: real, now: real, r: Run<V>, n: nat, q: Run<V>, m: nat, i: nat)
    requires Lawful(env, p, k, start, now, r, n) && Lawful(env, p, k, start, now, q, m) && i < n && i < m
    ensures CallStands(env, k, now, r.trace, i) && CallStands(env, k, now, q.trace, i)
    ensures r.trace[3 * i] == q.trace[3 * i]
  {
    assert if i < n - 1 then GoesOn(env, p, k, start, now, r.trace, i) else EndsAt(env, p, k, start, now, r, i);
    assert if i < m - 1 then GoesOn(env, p, k, start, now, q.trace, i) else EndsAt(env, p, k, start, now, q, i);
    if i > 0 {
      SameCalls(env, p, k, start, now, r, n, q, m, i - 1);
      assert GoesOn(env, p, k, start, now, r.trace, i - 1) && GoesOn(env, p, k, start, now, q.trace, i - 1);
      hide EndsAt, Final, Cut, Nap, FailedForNow;
    }
  }

  /** A run cannot both end after a call and go on. */
  lemma EndsOrGoesOn<V>(
    env: Environment<V>, p: Policy, k: nat, start: real, now: real, r: Run<V>, trace: seq<Event<V>>, i: nat)
    requires EndsAt(env, p, k, start, now, r, i)
    requires 3 * i < |trace| && r.trace[3 * i] == trace[3 * i]
    ensures !GoesOn(env, p, k, start, now, trace, i)
  {
    hide CallStands, Nap;
  }

  lemma LawfulRunsEndTogether<V>(
    env: Environment<V>, p: Policy, k: nat, start: real, now: real, r: Run<V>, n: nat, q: Run<V>, m: nat)
    requires Lawful(env, p, k, start, now, r, n) && Lawful(env, p, k, start, now, q, m)
    ensures n <= m
  {
    if m < n {
      SameCalls(env, p, k, start, now, r, n, q, m, m - 1);
      hide CallStands, GoesOn, EndsAt;
      EndsOrGoesOn(env, p, k, start, now, q, r.trace, m - 1);
    }
  }

  lemma LastEventsAgree<V>(env: Environment<V>, p: Policy, k: nat, start: real, now: real, r: Run<V>, q: Run<V>, i: nat)
    requires EndsAt(env, p, k, start, now, r, i) && EndsAt(env, p, k, start, now, q, i)
    requires r.trace[3 * i] == q.trace[3 * i]
    ensures |r.trace| == |q.trace| && r.finish == q.finish
    ensures forall j :: 3 * i <= j < |r.trace| ==> r.trace[j] == q.trace[j]
  {
    hide CallStands, Nap;
  }

  /** The environment, the policy and the clock leave one trace and one finish. */
  lemma LawfulRunIsUnique<V>(
    env: Environment<V>, p: Policy, k: nat, start: real, now: real, r: Run<V>, n: nat, q: Run<V>, m: nat)
    requires Lawful(env, p, k, start, now, r, n) && Lawful(env, p, k, start, now, q, m)
    ensures n == m && r.trace == q.trace && r.finish == q.finish
  {
    LawfulRunsEndTogether(env, p, k, start, now, r, n, q, m);
    LawfulRunsEndTogether(env, p, k, start, now, q, m, r, n);
    SameCalls(env, p, k, start, now, r, n, q, m, n - 1);
    LastEventsAgree(env, p, k, start, now, r, q, n - 1);
    forall j | 0 <= j < 3 * (n - 1)
      ensures r.trace[j] == q.trace[j]
    {
      var i: nat := j / 3;
      SameCalls(env, p, k, start, now, r, n, q, m, i);
      assert GoesOn(env, p, k, start, now, r.trace, i) && GoesOn(env, p, k, start, now, q.trace, i);
      assert j == 3 * i || j == 3 * i + 1 || j == 3 * i + 2;
    }
  }

  // ----- What the breaker hears -----------------------------------------------------------------------------

  /** The last three events of a longer trace. */
  lemma ReportsOfThree<V>(trace: seq<Event<V>>, i: nat)
    requires 3 * i + 3 <= |trace| && trace[3 * i].Called? && trace[3 * i + 2].Slept?
    requires trace[3 * i + 1].RecordedFailure?
    ensures Reports(trace[..3 * (i + 1)]) == Reports(trace[..3 * i]) + [Breaker.Failure(trace[3 * i + 1].at)]
  {
    hide Reports;
    var c, f, s := trace[3 * i], trace[3 * i + 1], trace[3 * i + 2];
    assert trace[..3 * (i + 1)] == trace[..3 * i] + [c, f, s];
    ReportsAppend(trace[..3 * i], [c, f, s]);
    ReportsShort(c, f, s);
  }

  /** Report `i` is that of call `i`: when it ended, and as what. */
  ghost predicate Heard<V>(env: Environment<V>, k: nat, trace: seq<Event<V>>, reports: seq<Breaker.Event>, i: nat) {
    && i < |reports| && 3 * i < |trace| && trace[3 * i].Called?
    && reports[i] == if env(k + i).outcome.Value? then Breaker.Success(trace[3 * i].until)
                     else Breaker.Failure(trace[3 * i].until)
  }

  /** Before its last call a run reports one failure for each call. */
  lemma {:induction false} ReportsBefore<V>(
    env: Environment<V>, p: Policy, k: nat, start: real, now: real, r: Run<V>, n: nat, i: nat)
    requires Lawful(env, p, k, start, now, r, n) && i < n
    ensures 3 * i < |r.trace| && |Reports(r.trace[..3 * i])| == i
    ensures forall j: nat :: j < i ==> Heard(env, k, r.trace, Reports(r.trace[..3 * i]), j)
  {
    hide *;
    CallIsThere(env, p, k, start, now, r, n, i);
    if i == 0 {
      NothingReported(r.trace);
    } else {
      var before := Reports(r.trace[..3 * (i - 1)]);
      FailureIsThere(env, p, k, start, now, r, n, i - 1);
      ReportsBefore(env, p, k, start, now, r, n, i - 1);
      ReportsOfThree(r.trace, i - 1);
      FailureIsHeard(env, k, r.trace, before, i - 1);
      HeardLonger(env, k, r.trace, before, [Breaker.Failure(r.trace[3 * (i - 1)].until)]);
    }
  }

  lemma CallIsThere<V>(env: Environment<V>, p: Policy, k: nat, start: real, now: real, r: Run<V>, n: nat, i: nat)
    requires Lawful(env, p, k, start, now, r, n) && i < n
    ensures 3 * i < |r.trace| && r.trace[3 * i].Called? && r.trace[3 * i].outcome == env(k + i).outcome
  {
    SameCalls(env, p, k, start, now, r, n, r, n, i);
    hide Lawful;
  }

  lemma FailureIsThere<V>(env: Environment<V>, p: Policy, k: nat, start: real, now: real, r: Run<V>, n: nat, i: nat)
    requires Lawful(env, p, k, start, now, r, n) && i < n - 1
    ensures 3 * i + 3 <= |r.trace| && r.trace[3 * i].Called? && !env(k + i).outcome.Value?
    ensures r.trace[3 * i + 1] == RecordedFailure(r.trace[3 * i].until) && r.trace[3 * i + 2].Slept?
  {
    assert GoesOn(env, p, k, start, now, r.trace, i);
    hide Lawful, Nap, Final, Cut;
  }

  lemma NothingReported<V>(trace: seq<Event<V>>)
    ensures trace[..0] == [] && Reports(trace[..0]) == []
  {
  }

  lemma FailureIsHeard<V>(env: Environment<V>, k: nat, trace: seq<Event<V>>, before: seq<Breaker.Event>, i: nat)
    requires 3 * i < |trace| && trace[3 * i].Called? && |before| == i && !env(k + i).outcome.Value?
    ensures Heard(env, k, trace, before + [Breaker.Failure(trace[3 * i].until)], i)
  {
  }

  lemma HeardLonger<V>(env: Environment<V>, k: nat, trace: seq<Event<V>>, a: seq<Breaker.Event>, b: seq<Breaker.Event>)
    requires forall j: nat :: j < |a| ==> Heard(env, k, trace, a, j)
    requires |b| == 1 ==> Heard(env, k, trace, a + b, |a|)
    requires |b| <= 1
    ensures forall j: nat :: j < |a + b| ==> Heard(env, k, trace, a + b, j)
  {
    forall j: nat | j < |a|
      ensures Heard(env, k, trace, a + b, j)
    {
      assert Heard(env, k, trace, a, j);
    }
  }

  /** The breaker hears of every call but a cancelled one, once, in order, when it ended, and as what it ended. */
  lemma BreakerHearsEachCall<V>(
    env: Environment<V>, p: Policy, k: nat, start: real, now: real, r: Run<V>, n: nat)
    requires Lawful(env, p, k, start, now, r, n)
    ensures |Reports(r.trace)| == if env(k + n - 1).outcome.Cancelled? then n - 1 else n
    ensures forall i: nat :: i < |Reports(r.trace)| ==> Heard(env, k, r.trace, Reports(r.trace), i)
  {
    assert n > 0 && EndsAt(env, p, k, start, now, r, n - 1);
    hide *;
    var i := n - 1;
    ReportsBefore(env, p, k, start, now, r, n, i);
    CallIsThere(env, p, k, start, now, r, n, i);
    LastReports(env, p, k, start, now, r, i);
    assert r.trace == r.trace[..3 * i] + r.trace[3 * i..];
    ReportsAppend(r.trace[..3 * i], r.trace[3 * i..]);
    LastIsHeard(env, k, r.trace, Reports(r.trace[..3 * i]), Reports(r.trace[3 * i..]), i);
    HeardLonger(env, k, r.trace, Reports(r.trace[..3 * i]), Reports(r.trace[3 * i..]));
  }

  lemma LastIsHeard<V>(
    env: Environment<V>, k: nat, trace: seq<Event<V>>, before: seq<Breaker.Event>, last: seq<Breaker.Event>, i: nat)
    requires 3 * i < |trace| && trace[3 * i].Called? && |before| == i
    requires last == if env(k + i).outcome.Cancelled? then []
                     else if env(k + i).outcome.Value? then [Breaker.Success(trace[3 * i].until)]
                     else [Breaker.Failure(trace[3 * i].until)]
    ensures |last| == 1 ==> Heard(env, k, trace, before + last, i)
  {
  }

  lemma LastReports<V>(env: Environment<V>, p: Policy, k: nat, start: real, now: real, r: Run<V>, i: nat)
    requires EndsAt(env, p, k, start, now, r, i)
    ensures Reports(r.trace[3 * i..]) ==
              if env(k + i).outcome.Cancelled? then []
              else if env(k + i).outcome.Value? then [Breaker.Success(r.trace[3 * i].until)]
              else [Breaker.Failure(r.trace[3 * i].until)]
  {
    var last := r.trace[3 * i..];
    var c := last[0];
    ReportsShort(c, RecordedSuccess(c.until), Slept(c.until, 0.0));
    assert |last| == 1 ==> last == [c];
    assert |last| == 2 ==> last == [c, last[1]];
    if |last| > 1 {
      ReportsShort(c, last[1], if |last| > 2 then last[2] else Slept(c.until, 0.0));
      assert |last| == 3 ==> last == [c, last[1], last[2]];
    }
    hide Reports, Nap;
  }

  /** A rejected call makes no attempt. */
  lemma RejectedRunIsEmpty<V>(env: Environment<V>, p: Policy, start: real)
    ensures var r := Specified(env, p, false, start);
            r.trace == [] && r.ending.Raised? && r.ending.e.CircuitOpenError? && r.finish == start
  {
  }
}

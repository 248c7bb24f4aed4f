/**
 * `call_with_resilience`: bounded retries with jittered backoff under a breaker and a deadline.
 * Both services carry a copy; `CallSync` and `CallAsync` are the two, and `Drive` specifies both.
 */
module Retry {
  import opened Wrappers
  import opened Breaker

  /** Errors of the service's own hierarchy, as far as the driver tells them apart. */
  datatype Error =
    | TimeoutError(detail: string)
    | UnavailableError(detail: string)
    | CircuitOpenError(detail: string)
    | OtherError(code: string, retryable: bool, detail: string)
  {
    predicate Retryable() { OtherError? ==> retryable }
    predicate Outage() { TimeoutError? || UnavailableError? }
  }

  /** How one call of `fn` ends. */
  datatype Outcome<V> =
    | Value(v: V)
    | Wrapped(e: Error)
    | Unwrapped(message: string)
    | Cancelled

  /** The environment's part of one attempt: the call's outcome and duration, the delay drawn after it, and
    * how far into that sleep a cancellation arrives, if one does. */
  datatype Attempt<V> = Attempt(outcome: Outcome<V>, took: real, draw: real, cut: Option<real>)

  type Environment<V> = nat -> Attempt<V>

  datatype Policy = Policy(maxRetries: int, baseDelay: real, maxDelay: real, deadline: Option<real>) {
    /** `sleep` takes no negative delay. */
    predicate Valid() { baseDelay >= 0.0 && maxDelay >= 0.0 }
  }

  datatype Event<V> =
    | Called(outcome: Outcome<V>, from: real, until: real)
    | RecordedSuccess(at: real)
    | RecordedFailure(at: real)
    | Slept(from: real, delay: real)

  datatype Ending<V> = Returned(v: V) | Raised(e: Error) | Interrupted

  datatype Run<V> = Run(trace: seq<Event<V>>, ending: Ending<V>, finish: real) {
    function After(prefix: seq<Event<V>>): Run<V> { this.(trace := prefix + trace) }
  }

  function Min(a: real, b: real): real { if a <= b then a else b }
  function Max(a: real, b: real): real { if a <= b then b else a }

  /** `base * 2**attempt`. */
  function Doubled(base: real, attempt: nat): (r: real)
    ensures base >= 0.0 ==> r >= 0.0
  {
    if attempt == 0 then base else 2.0 * Doubled(base, attempt - 1)
  }

  /** The most `backoff_delay` may draw: full jitter is uniform between zero and this. */
  function Ceiling(p: Policy, attempt: nat): real {
    Min(p.maxDelay, Doubled(p.baseDelay, attempt))
  }

  /** Time never runs backwards, and every draw lies in the range it is drawn from. */
  ghost predicate Sane<V>(env: Environment<V>, p: Policy) {
    forall k: nat ::
      && env(k).took >= 0.0 && 0.0 <= env(k).draw <= Ceiling(p, k)
      && (env(k).cut.Some? ==> env(k).cut.value >= 0.0)
  }

  predicate OutOfTime(p: Policy, start: real, now: real) {
    p.deadline.Some? && now - start >= p.deadline.value
  }

  /** What is raised once the attempts are over. */
  function Exhausted(last: Option<Error>): Error {
    if last.Some? && last.value.Outage() then last.value else UnavailableError("attempts failed")
  }

  /** One attempt either ends the run or leaves an error behind and sleeps. */
  datatype Progress<V> = Stop(run: Run<V>) | Again(events: seq<Event<V>>, now: real, e: Error)

  /** The sleep after a recorded failure, which a cancellation may cut short and end the run. */
  function Rest<V>(called: Event<V>, until: real, nap: real, cut: Option<real>, e: Error): Progress<V> {
    if cut.Some? && cut.value <= nap then
      Stop(Run([called, RecordedFailure(until), Slept(until, cut.value)], Interrupted, until + cut.value))
    else
      Again([called, RecordedFailure(until), Slept(until, nap)], until + nap, e)
  }

  function One<V>(env: Environment<V>, p: Policy, attempt: nat, start: real, now: real): Progress<V> {
    var a := env(attempt);
    var until := now + a.took;
    var called := Called(a.outcome, now, until);
    match a.outcome
    case Value(v) => Stop(Run([called, RecordedSuccess(until)], Returned(v), until))
    case Cancelled => Stop(Run([called], Interrupted, until))
    case Wrapped(e) =>
      if !e.Retryable() then Stop(Run([called, RecordedFailure(until)], Raised(e), until))
      else if attempt >= p.maxRetries || OutOfTime(p, start, until) then
        Stop(Run([called, RecordedFailure(until)], Raised(Exhausted(Some(e))), until))
      else
        var nap := if p.deadline.Some? then Min(a.draw, p.deadline.value - (until - start)) else a.draw;
        Rest(called, until, nap, a.cut, e)
    case Unwrapped(message) =>
      var e := UnavailableError(message);
      if attempt >= p.maxRetries then
        Stop(Run([called, RecordedFailure(until)], Raised(Exhausted(Some(e))), until))
      else
        Rest(called, until, a.draw, a.cut, e)
  }

  /** The run of the retry loop from one attempt on. */
  function Drive<V>(env: Environment<V>, p: Policy, attempt: nat, start: real, now: real, last: Option<Error>): Run<V>
    decreases p.maxRetries + 1 - attempt
  {
    if attempt > p.maxRetries || (attempt > 0 && OutOfTime(p, start, now)) then
      Run([], Raised(Exhausted(last)), now)
    else
      match One(env, p, attempt, start, now)
      case Stop(run) => run
      case Again(events, now', e) => Drive(env, p, attempt + 1, start, now', Some(e)).After(events)
  }

  /** What a run reports to the breaker. */
  function Reports<V>(trace: seq<Event<V>>): seq<Breaker.Event> {
    if trace == [] then []
    else
      (match trace[0]
       case RecordedSuccess(at) => [Breaker.Success(at)]
       case RecordedFailure(at) => [Breaker.Failure(at)]
       case _ => [])
      + Reports(trace[1..])
  }

  lemma {:induction false} ReportsAppend<V>(a: seq<Event<V>>, b: seq<Event<V>>)
    ensures Reports(a + b) == Reports(a) + Reports(b)
  {
    if a == [] {
      assert a + b == b;
    } else {
      assert (a + b)[1..] == a[1..] + b;
      ReportsAppend(a[1..], b);
    }
  }

  lemma ReportsStep<V>(e: Event<V>, rest: seq<Event<V>>)
    ensures e.Called? || e.Slept? ==> Reports([e] + rest) == Reports(rest)
    ensures e.RecordedFailure? ==> Reports([e] + rest) == [Breaker.Failure(e.at)] + Reports(rest)
    ensures e.RecordedSuccess? ==> Reports([e] + rest) == [Breaker.Success(e.at)] + Reports(rest)
  {
    assert ([e] + rest)[0] == e && ([e] + rest)[1..] == rest;
  }

  lemma ReportsShort<V>(c: Event<V>, r: Event<V>, s: Event<V>)
    requires c.Called? && (r.RecordedFailure? || r.RecordedSuccess?) && s.Slept?
    ensures Reports([c]) == []
    ensures r.RecordedFailure? ==> Reports([c, r]) == Reports([c, r, s]) == [Breaker.Failure(r.at)]
    ensures r.RecordedSuccess? ==> Reports([c, r]) == Reports([c, r, s]) == [Breaker.Success(r.at)]
  {
    assert Reports<V>([]) == [];
    hide Reports;
    ReportsStep(s, []);
    ReportsStep(r, []);
    ReportsStep(c, []);
    ReportsStep(r, [s]);
    ReportsStep(c, [r]);
    ReportsStep(c, [r, s]);
    assert [c] == [c] + [] && [r] == [r] + [] && [s] == [s] + [];
    assert [c, r] == [c] + [r] && [r, s] == [r] + [s] && [c, r, s] == [c] + [r, s];
  }

  // ----- The two drivers -----------------------------------------------------------------------------

  /** `sleep(delay)`, out of which only a cancellation can throw. */
  method Pause<V>(called: Event<V>, now: real, delay: real, cut: Option<real>, e: Error) returns (r: Progress<V>)
    requires called.Called?
    ensures r == Rest(called, now, delay, cut, e)
    ensures Reports(if r.Stop? then r.run.trace else r.events) == [Breaker.Failure(now)]
    ensures r.Again? ==> r.now == now + delay
  {
    ReportsShort<V>(called, RecordedFailure(now), Slept(now, delay));
    if cut.Some? && cut.value <= delay {
      ReportsShort<V>(called, RecordedFailure(now), Slept(now, cut.value));
      return Stop(Run([called, RecordedFailure(now), Slept(now, cut.value)], Interrupted, now + cut.value));
    }
    r := Again([called, RecordedFailure(now), Slept(now, delay)], now + delay, e);
  }

  /** ai-service's try statement: a non-retryable error is recorded and re-raised in its own branch. */
  method AttemptSync<V>(env: Environment<V>, p: Policy, breaker: CircuitBreaker, attempt: nat, start: real, from: real)
    returns (r: Progress<V>)
    requires Sane(env, p) && p.Valid() && breaker.Ready(from) && attempt <= p.maxRetries
    modifies breaker
    ensures r == One(env, p, attempt, start, from)
    ensures breaker.history == old(breaker.history) + Reports(if r.Stop? then r.run.trace else r.events)
    ensures breaker.Valid() && (r.Again? ==> breaker.Ready(r.now))
  {
    hide Breaker.Run, Breaker.Streak, Breaker.LastFailure, Reports, Ceiling;
    var a := env(attempt);
    var now := from + a.took;
    var called := Called(a.outcome, from, now);
    ReportsShort<V>(called, RecordedFailure(now), Slept(now, 0.0));
    ReportsShort<V>(called, RecordedSuccess(now), Slept(now, 0.0));
    if a.outcome.Wrapped? {
      var e := a.outcome.e;
      if !e.Retryable() {
        breaker.RecordFailure(now);
        return Stop(Run([called, RecordedFailure(now)], Raised(e), now));
      }
      breaker.RecordFailure(now);
      if attempt >= p.maxRetries {
        return Stop(Run([called, RecordedFailure(now)], Raised(Exhausted(Some(e))), now));
      }
      var delay := a.draw;
      if p.deadline.Some? {
        var remaining := p.deadline.value - (now - start);
        if remaining <= 0.0 {
          return Stop(Run([called, RecordedFailure(now)], Raised(Exhausted(Some(e))), now));
        }
        delay := Min(delay, remaining);
      }
      r := Pause(called, now, delay, a.cut, e);
      return;
    } else if a.outcome.Unwrapped? {
      breaker.RecordFailure(now);
      var e := UnavailableError(a.outcome.message);
      if attempt >= p.maxRetries {
        return Stop(Run([called, RecordedFailure(now)], Raised(Exhausted(Some(e))), now));
      }
      r := Pause(called, now, a.draw, a.cut, e);
      return;
    } else if a.outcome.Cancelled? {
      // Not an Exception: no handler of the driver sees it.
      return Stop(Run([called], Interrupted, now));
    } else {
      breaker.RecordSuccess(now);
      return Stop(Run([called, RecordedSuccess(now)], Returned(a.outcome.v), now));
    }
  }

  /** ai-service: admission, then the bounded loop. */
  method CallSync<V>(env: Environment<V>, p: Policy, breaker: CircuitBreaker, start: real) returns (r: Run<V>)
    requires Sane(env, p) && p.Valid() && breaker.Ready(start)
    modifies breaker
    ensures r == Specified(env, p, Due(breaker.settings, old(breaker.history), start) != Open, start)
    ensures breaker.Valid()
    ensures breaker.history == old(breaker.history) + [Breaker.Allow(start)] + Reports(r.trace)
  {
    hide Breaker.Run, Breaker.Step, Breaker.Streak, Breaker.LastFailure, One, Ceiling, Doubled;
    var admitted := breaker.CallAllowed(start);
    if !admitted {
      return Run([], Raised(CircuitOpenError("circuit is open")), start);
    }
    ghost var asked := breaker.history;
    var now, last: Option<Error>, trace: seq<Event<V>> := start, None, [];
    var attempt := 0;
    while attempt <= p.maxRetries
      invariant breaker.Ready(now) && breaker.history == asked + Reports(trace)
      invariant Drive(env, p, attempt, start, now, last).After(trace) == Drive(env, p, 0, start, start, None)
    {
      if attempt > 0 && OutOfTime(p, start, now) {
        break;
      }
      var progress := AttemptSync(env, p, breaker, attempt, start, now);
      if progress.Stop? {
        Extends(asked, trace, progress.run.trace);
        return progress.run.After(trace);
      }
      Extends(asked, trace, progress.events);
      AfterAfter(Drive(env, p, attempt + 1, start, progress.now, Some(progress.e)), progress.events, trace);
      trace, now, last := trace + progress.events, progress.now, Some(progress.e);
      attempt := attempt + 1;
    }
    return Run(trace, Raised(Exhausted(last)), now);
  }

  lemma AfterAfter<V>(r: Run<V>, a: seq<Event<V>>, b: seq<Event<V>>)
    ensures r.After(a).After(b) == r.After(b + a)
  {
    assert b + (a + r.trace) == (b + a) + r.trace;
  }

  lemma Extends<V>(asked: seq<Breaker.Event>, trace: seq<Event<V>>, events: seq<Event<V>>)
    ensures asked + Reports(trace) + Reports(events) == asked + Reports(trace + events)
  {
    ReportsAppend(trace, events);
  }

  /** What either driver does: rejected without a call, or the loop from its first attempt. */
  function Specified<V>(env: Environment<V>, p: Policy, admitted: bool, start: real): Run<V> {
    if admitted then Drive(env, p, 0, start, start, None)
    else Run([], Raised(CircuitOpenError("circuit is open")), start)
  }

  /** processing-service's try statement: it records every ProcessingError before asking whether to retry. */
  method AttemptAsync<V>(env: Environment<V>, p: Policy, breaker: CircuitBreaker, attempt: nat, start: real, from: real)
    returns (r: Progress<V>)
    requires Sane(env, p) && p.Valid() && breaker.Ready(from) && attempt <= p.maxRetries
    modifies breaker
    ensures r == One(env, p, attempt, start, from)
    ensures breaker.history == old(breaker.history) + Reports(if r.Stop? then r.run.trace else r.events)
    ensures breaker.Valid() && (r.Again? ==> breaker.Ready(r.now))
  {
    hide Breaker.Run, Breaker.Streak, Breaker.LastFailure, Reports, Ceiling;
    var a := env(attempt);
    var now := from + a.took;
    var called := Called(a.outcome, from, now);
    ReportsShort<V>(called, RecordedFailure(now), Slept(now, 0.0));
    ReportsShort<V>(called, RecordedSuccess(now), Slept(now, 0.0));
    if a.outcome.Wrapped? {
      var e := a.outcome.e;
      breaker.RecordFailure(now);
      if !e.Retryable() {
        return Stop(Run([called, RecordedFailure(now)], Raised(e), now));
      }
      if attempt >= p.maxRetries {
        return Stop(Run([called, RecordedFailure(now)], Raised(Exhausted(Some(e))), now));
      }
      var delay := a.draw;
      if p.deadline.Some? {
        var remaining := p.deadline.value - (now - start);
        if remaining <= 0.0 {
          return Stop(Run([called, RecordedFailure(now)], Raised(Exhausted(Some(e))), now));
        }
        delay := Min(delay, remaining);
      }
      r := Pause(called, now, delay, a.cut, e);
      return;
    } else if a.outcome.Cancelled? {
      // Shutdown is not the dependency's failure: nothing is recorded.
      return Stop(Run([called], Interrupted, now));
    } else if a.outcome.Unwrapped? {
      var e := UnavailableError(a.outcome.message);
      breaker.RecordFailure(now);
      if attempt >= p.maxRetries {
        return Stop(Run([called, RecordedFailure(now)], Raised(Exhausted(Some(e))), now));
      }
      r := Pause(called, now, a.draw, a.cut, e);
      return;
    } else {
      breaker.RecordSuccess(now);
      return Stop(Run([called, RecordedSuccess(now)], Returned(a.outcome.v), now));
    }
  }

  /** processing-service: the same contract as `CallSync`, so the same trace and ending. */
  method CallAsync<V>(env: Environment<V>, p: Policy, breaker: CircuitBreaker, start: real) returns (r: Run<V>)
    requires Sane(env, p) && p.Valid() && breaker.Ready(start)
    modifies breaker
    ensures r == Specified(env, p, Due(breaker.settings, old(breaker.history), start) != Open, start)
    ensures breaker.Valid()
    ensures breaker.history == old(breaker.history) + [Breaker.Allow(start)] + Reports(r.trace)
  {
    hide Breaker.Run, Breaker.Step, Breaker.Streak, Breaker.LastFailure, One, Ceiling, Doubled;
    var admitted := breaker.CallAllowed(start);
    if !admitted {
      return Run([], Raised(CircuitOpenError("circuit is open")), start);
    }
    ghost var asked := breaker.history;
    var now, last: Option<Error>, trace: seq<Event<V>> := start, None, [];
    var attempt := 0;
    while attempt <= p.maxRetries
      invariant breaker.Ready(now) && breaker.history == asked + Reports(trace)
      invariant Drive(env, p, attempt, start, now, last).After(trace) == Drive(env, p, 0, start, start, None)
    {
      if attempt > 0 && OutOfTime(p, start, now) {
        break;
      }
      var progress := AttemptAsync(env, p, breaker, attempt, start, now);
      if progress.Stop? {
        Extends(asked, trace, progress.run.trace);
        return progress.run.After(trace);
      }
      Extends(asked, trace, progress.events);
      AfterAfter(Drive(env, p, attempt + 1, start, progress.now, Some(progress.e)), progress.events, trace);
      trace, now, last := trace + progress.events, progress.now, Some(progress.e);
      attempt := attempt + 1;
    }
    return Run(trace, Raised(Exhausted(last)), now);
  }
}

/** What every run of the retry driver keeps: accounting, outcome, and wall-clock time. */
module RetryBounds {
  import opened Wrappers
  import opened Retry

  // ----- Accounting ------------------------------------------------------------------------------------

  predicate IsRecord<V>(e: Event<V>) { e.RecordedSuccess? || e.RecordedFailure? }

  predicate Reported<V>(call: Event<V>, record: Event<V>)
    requires call.Called?
  {
    if call.outcome.Value? then record == RecordedSuccess(call.until) else record == RecordedFailure(call.until)
  }

  /** What a call, and what a record, has next to it. */
  predicate AccountedAt<V>(trace: seq<Event<V>>, i: nat)
    requires i < |trace|
  {
    && (trace[i].Called? ==>
          if trace[i].outcome.Cancelled? then i + 1 == |trace|
          else i + 1 < |trace| && Reported(trace[i], trace[i + 1]))
    && (IsRecord(trace[i]) ==> 0 < i && trace[i - 1].Called?)
  }

  /**
   * Every call is followed at once by the one record of its result, except a cancelled call, which ends
   * the run unrecorded; and there is no other record.
   */
  ghost predicate Accounted<V>(trace: seq<Event<V>>) {
    forall i :: 0 <= i < |trace| ==> AccountedAt(trace, i)
  }

  lemma {:induction false} RunIsAccounted<V>(
    env: Environment<V>, p: Policy, attempt: nat, start: real, now: real, last: Option<Error>)
    ensures var trace := Drive(env, p, attempt, start, now, last).trace;
            Accounted(trace) && (trace != [] ==> trace[0].Called?)
    decreases p.maxRetries + 1 - attempt
  {
    hide *;
    AccountedStep(env, p, attempt, start, now, last);
    var one := One(env, p, attempt, start, now);
    if !Over(p, attempt, start, now) && one.Again? {
      RunIsAccounted(env, p, attempt + 1, start, one.now, Some(one.e));
      var rest := Drive(env, p, attempt + 1, start, one.now, Some(one.e)).trace;
      AccountedAfter(one.events, rest);
      assert (one.events + rest)[0] == one.events[0];
    }
  }

  /** One step of the driver: the trace of an ending, or three events in front of the rest. */
  lemma AccountedStep<V>(env: Environment<V>, p: Policy, attempt: nat, start: real, now: real, last: Option<Error>)
    ensures var one := One(env, p, attempt, start, now);
            var trace := Drive(env, p, attempt, start, now, last).trace;
            if Over(p, attempt, start, now) then trace == [] && Accounted(trace)
            else if one.Stop? then trace == one.run.trace && Accounted(trace) && trace[0].Called?
            else
              && attempt < p.maxRetries
              && trace == one.events + Drive(env, p, attempt + 1, start, one.now, Some(one.e)).trace
              && |one.events| == 3 && one.events[0].Called? && !one.events[0].outcome.Cancelled?
              && Reported(one.events[0], one.events[1]) && one.events[2].Slept?
  {
    hide OutOfTime, Min;
  }

  lemma AccountedAfter<V>(events: seq<Event<V>>, rest: seq<Event<V>>)
    requires |events| == 3 && events[0].Called? && !events[0].outcome.Cancelled?
    requires Reported(events[0], events[1]) && events[2].Slept?
    requires Accounted(rest) && (rest != [] ==> rest[0].Called?)
    ensures Accounted(events + rest)
  {
    var t := events + rest;
    assert t[0] == events[0] && t[1] == events[1] && t[2] == events[2];
    forall i | 0 <= i < |t|
      ensures AccountedAt(t, i)
    {
      if i >= 3 {
        var j := i - 3;
        assert AccountedAt(rest, j);
        assert t[i] == rest[j];
        assert j + 1 < |rest| ==> t[i + 1] == rest[j + 1];
        assert j > 0 ==> t[i - 1] == rest[j - 1];
      }
    }
  }

  // ----- Outcome ---------------------------------------------------------------------------------------

  function Calls<V>(trace: seq<Event<V>>): seq<Outcome<V>> {
    if trace == [] then []
    else (if trace[0].Called? then [trace[0].outcome] else []) + Calls(trace[1..])
  }

  /** A failure the driver answers with another attempt. */
  predicate Temporary<V>(o: Outcome<V>) {
    o.Unwrapped? || (o.Wrapped? && o.e.Retryable())
  }

  /** The error an attempt leaves behind. */
  function LeftBehind<V>(o: Outcome<V>): Error
    requires Temporary(o)
  {
    if o.Unwrapped? then UnavailableError(o.message) else o.e
  }

  /** How the calls of a run decide its ending; the sleep after a temporary failure may be interrupted. */
  ghost predicate EndsAsCalled<V>(calls: seq<Outcome<V>>, ending: Ending<V>) {
    && calls != []
    && (forall i :: 0 <= i < |calls| - 1 ==> Temporary(calls[i]))
    && match calls[|calls| - 1]
       case Value(v) => ending == Returned(v)
       case Cancelled => ending == Interrupted
       case Wrapped(e) =>
         || (ending == Interrupted && e.Retryable())
         || (ending.Raised? &&
               if e.CircuitOpenError? || (e.OtherError? && e.retryable) then ending.e.UnavailableError? else ending.e == e)
       case Unwrapped(message) => ending in {Interrupted, Raised(UnavailableError(message))}
  }

  lemma CallsCons<V>(first: Event<V>, rest: seq<Event<V>>)
    ensures Calls([first] + rest) == (if first.Called? then [first.outcome] else []) + Calls(rest)
  {
    assert ([first] + rest)[1..] == rest;
  }

  /** A call and what the driver does after it. */
  lemma CallsShort<V>(t: seq<Event<V>>)
    requires 1 <= |t| <= 3 && t[0].Called? && forall i :: 1 <= i < |t| ==> !t[i].Called?
    ensures Calls(t) == [t[0].outcome]
  {
    var none: seq<Event<V>> := [];
    assert Calls(none) == [];
    if |t| > 2 { assert t[2..] == [t[2]] + none; CallsCons(t[2], none); }
    if |t| > 1 { assert t[1..] == [t[1]] + t[2..]; CallsCons(t[1], t[2..]); }
    assert t == [t[0]] + t[1..];
    CallsCons(t[0], t[1..]);
  }

  lemma CallsOfOne<V>(env: Environment<V>, p: Policy, attempt: nat, start: real, now: real)
    ensures var one := One(env, p, attempt, start, now);
            && Calls(if one.Stop? then one.run.trace else one.events) == [env(attempt).outcome]
            && (one.Again? ==> Temporary(env(attempt).outcome) && one.e == LeftBehind(env(attempt).outcome))
  {
    var one := One(env, p, attempt, start, now);
    CallsShort(if one.Stop? then one.run.trace else one.events);
    hide Calls;
  }

  lemma {:induction false} CallsAppend<V>(a: seq<Event<V>>, b: seq<Event<V>>)
    ensures Calls(a + b) == Calls(a) + Calls(b)
  {
    if a == [] {
      assert a + b == b && Calls(a) + Calls(b) == Calls(b);
    } else {
      hide *;
      var first, rest := a[0], a[1..];
      assert a == [first] + rest && a + b == [first] + (rest + b);
      CallsAppend(rest, b);
      CallsCons(first, rest);
      CallsCons(first, rest + b);
      Regroup(if first.Called? then [first.outcome] else [], Calls(rest), Calls(b));
    }
  }

  lemma Regroup<T>(a: seq<T>, b: seq<T>, c: seq<T>)
    ensures a + b + c == a + (b + c)
  {
  }

  /** No attempt is left, or the deadline has passed between attempts. */
  predicate Over(p: Policy, attempt: nat, start: real, now: real) {
    attempt > p.maxRetries || (attempt > 0 && OutOfTime(p, start, now))
  }

  /** The calls of a run: one attempt's, and those of the attempts after it. */
  lemma CallsStep<V>(
    env: Environment<V>, p: Policy, attempt: nat, start: real, now: real, last: Option<Error>)
    ensures Over(p, attempt, start, now) ==> Calls(Drive(env, p, attempt, start, now, last).trace) == []
    ensures !Over(p, attempt, start, now) ==>
      var one := One(env, p, attempt, start, now);
      Calls(Drive(env, p, attempt, start, now, last).trace) ==
        [env(attempt).outcome] + if one.Stop? then []
                                 else Calls(Drive(env, p, attempt + 1, start, one.now, Some(one.e)).trace)
    ensures !Over(p, attempt, start, now) && One(env, p, attempt, start, now).Again? ==> attempt < p.maxRetries
  {
    if !Over(p, attempt, start, now) {
      var one := One(env, p, attempt, start, now);
      CallsOfOne(env, p, attempt, start, now);
      assert one.Again? ==> attempt < p.maxRetries;
      if one.Again? {
        CallsAppend(one.events, Drive(env, p, attempt + 1, start, one.now, Some(one.e)).trace);
      }
      hide Calls, One;
    }
  }

  /** A run makes a call unless it is over, and at most one per attempt left. */
  lemma {:induction false} RunCallCount<V>(
    env: Environment<V>, p: Policy, attempt: nat, start: real, now: real, last: Option<Error>)
    ensures var calls := Calls(Drive(env, p, attempt, start, now, last).trace);
            && (calls == [] <==> Over(p, attempt, start, now))
            && (calls != [] ==> |calls| <= p.maxRetries + 1 - attempt)
    decreases p.maxRetries + 1 - attempt
  {
    CallsStep(env, p, attempt, start, now, last);
    hide Calls, Drive, One;
    var one := One(env, p, attempt, start, now);
    if !Over(p, attempt, start, now) && one.Again? {
      RunCallCount(env, p, attempt + 1, start, one.now, Some(one.e));
    }
  }

  /** The calls are the environment's, one per attempt, in order. */
  lemma {:induction false} RunCallsTheEnvironment<V>(
    env: Environment<V>, p: Policy, attempt: nat, start: real, now: real, last: Option<Error>, i: nat)
    requires i < |Calls(Drive(env, p, attempt, start, now, last).trace)|
    ensures Calls(Drive(env, p, attempt, start, now, last).trace)[i] == env(attempt + i).outcome
    decreases i
  {
    hide *;
    CallsStep(env, p, attempt, start, now, last);
    var one := One(env, p, attempt, start, now);
    if i > 0 {
      RunCallsTheEnvironment(env, p, attempt + 1, start, one.now, Some(one.e), i - 1);
    }
  }

  /** The calls decide the ending; without one, the error left behind does. */
  lemma {:induction false} RunEndsAsCalled<V>(
    env: Environment<V>, p: Policy, attempt: nat, start: real, now: real, last: Option<Error>)
    ensures var r := Drive(env, p, attempt, start, now, last);
            if Calls(r.trace) == [] then EndsUncalled(last, r.ending) && r.finish == now
            else EndsAsCalled(Calls(r.trace), r.ending)
    decreases p.maxRetries + 1 - attempt
  {
    RunCallCount(env, p, attempt, start, now, last);
    if !Over(p, attempt, start, now) {
      var one := One(env, p, attempt, start, now);
      CallsOfOne(env, p, attempt, start, now);
      if one.Again? {
        var rest := Drive(env, p, attempt + 1, start, one.now, Some(one.e));
        RunEndsAsCalled(env, p, attempt + 1, start, one.now, Some(one.e));
        CallsAppend(one.events, rest.trace);
        TemporaryFirst(env(attempt).outcome, Calls(rest.trace), rest.ending);
      }
    }
  }

  /** A timeout or an outage left behind is raised itself; anything else, and nothing, becomes an outage. */
  predicate EndsUncalled<V>(last: Option<Error>, ending: Ending<V>) {
    && ending.Raised?
    && if last.Some? && (last.value.TimeoutError? || last.value.UnavailableError?) then ending.e == last.value
       else ending.e.UnavailableError?
  }

  lemma TemporaryFirst<V>(o: Outcome<V>, calls: seq<Outcome<V>>, ending: Ending<V>)
    requires Temporary(o)
    requires if calls == [] then EndsUncalled(Some(LeftBehind(o)), ending) else EndsAsCalled(calls, ending)
    ensures EndsAsCalled([o] + calls, ending)
  {
    var all := [o] + calls;
    assert forall i :: 1 <= i < |all| ==> all[i] == calls[i - 1];
  }

  /** A non-retryable error escapes exactly when the last call raised it. */
  lemma NonRetryableEscapes<V>(env: Environment<V>, p: Policy, start: real, e: Error)
    requires !e.Retryable()
    ensures var r := Specified(env, p, true, start); var calls := Calls(r.trace);
            r.ending == Raised(e) <==> calls != [] && calls[|calls| - 1] == Wrapped(e)
  {
    RunEndsAsCalled(env, p, 0, start, start, None);
  }

  /**
   * A timeout escapes exactly when the last call raised that very timeout and no cancellation came after it;
   * every other retryable error an admitted run raises, one without a call included, is an outage.
   */
  lemma ExhaustionIsAnOutage<V>(env: Environment<V>, p: Policy, start: real, d: string)
    ensures var r := Specified(env, p, true, start); var calls := Calls(r.trace);
            && (r.ending == Raised(TimeoutError(d))
                <==> calls != [] && calls[|calls| - 1] == Wrapped(TimeoutError(d)) && r.ending != Interrupted)
            && (r.ending.Raised? && (r.ending.e.OtherError? ==> r.ending.e.retryable) && !r.ending.e.TimeoutError?
                ==> r.ending.e.UnavailableError?)
  {
    RunEndsAsCalled(env, p, 0, start, start, None);
  }

  /** A run gives up before its last attempt only once the deadline has passed. */
  lemma {:induction false} GivesUpEarlyOnlyWhenLate<V>(
    env: Environment<V>, p: Policy, attempt: nat, start: real, now: real, last: Option<Error>)
    requires last.None? ==> attempt == 0
    ensures var r := Drive(env, p, attempt, start, now, last);
            r.ending.Raised? && r.ending.e.Retryable() && |Calls(r.trace)| < p.maxRetries + 1 - attempt
            ==> OutOfTime(p, start, r.finish)
    decreases p.maxRetries + 1 - attempt
  {
    if !(attempt > p.maxRetries || (attempt > 0 && OutOfTime(p, start, now))) {
      var one := One(env, p, attempt, start, now);
      CallsOfOne(env, p, attempt, start, now);
      if one.Again? {
        GivesUpEarlyOnlyWhenLate(env, p, attempt + 1, start, one.now, Some(one.e));
        CallsAppend(one.events, Drive(env, p, attempt + 1, start, one.now, Some(one.e)).trace);
      }
    }
  }

  // ----- Wall-clock time -------------------------------------------------------------------------------

  ghost predicate CallsWithin<V>(env: Environment<V>, limit: real) {
    forall k: nat :: env(k).took <= limit
  }

  ghost predicate AllWrapped<V>(env: Environment<V>) {
    forall k: nat :: !env(k).outcome.Unwrapped?
  }

  /** When the deadline stops new attempts; a negative one does not stop the first. */
  function Cutoff(p: Policy, start: real): real
    requires p.deadline.Some?
  {
    start + Max(0.0, p.deadline.value)
  }

  /** How a run goes on from one attempt. */
  lemma DriveStep<V>(
    env: Environment<V>, p: Policy, attempt: nat, start: real, now: real, last: Option<Error>)
    ensures Over(p, attempt, start, now) ==> Drive(env, p, attempt, start, now, last).finish == now
    ensures !Over(p, attempt, start, now) ==>
      match One(env, p, attempt, start, now)
      case Stop(run) => Drive(env, p, attempt, start, now, last).finish == run.finish
      case Again(_, now', e) =>
        attempt < p.maxRetries
        && Drive(env, p, attempt, start, now, last).finish == Drive(env, p, attempt + 1, start, now', Some(e)).finish
  {
  }

  /** When an attempt is over: after its call and, if another one may follow, its sleep. */
  function Until<V>(progress: Progress<V>): real {
    if progress.Stop? then progress.run.finish else progress.now
  }

  lemma OneTakes<V>(env: Environment<V>, p: Policy, attempt: nat, start: real, now: real)
    requires Sane(env, p)
    ensures var a, until := env(attempt), Until(One(env, p, attempt, start, now));
            && now <= until <= now + a.took + (if attempt < p.maxRetries then a.draw else 0.0)
            && (!a.outcome.Unwrapped? && p.deadline.Some? ==> until <= Max(now + a.took, start + p.deadline.value))
  {
    assert env(attempt).took >= 0.0 && env(attempt).draw >= 0.0;
    assert env(attempt).cut.Some? ==> env(attempt).cut.value >= 0.0;
    hide Sane, Ceiling;
  }

  /** With wrapped errors only, a run ends within the deadline plus one call. */
  lemma {:induction false} EndsWithinOneCall<V>(
    env: Environment<V>, p: Policy, attempt: nat, start: real, now: real, last: Option<Error>, limit: real)
    requires p.Valid() && Sane(env, p) && CallsWithin(env, limit) && AllWrapped(env) && p.deadline.Some?
    requires start <= now <= Cutoff(p, start) && (attempt == 0 ==> now == start)
    ensures now <= Drive(env, p, attempt, start, now, last).finish <= Cutoff(p, start) + limit
    decreases p.maxRetries + 1 - attempt
  {
    assert 0.0 <= env(attempt).took <= limit && !env(attempt).outcome.Unwrapped?;
    assert Cutoff(p, start) == start + Max(0.0, p.deadline.value);
    DriveStep(env, p, attempt, start, now, last);
    OneTakes(env, p, attempt, start, now);
    hide Drive, Sane, CallsWithin, AllWrapped;
    var one := One(env, p, attempt, start, now);
    if !Over(p, attempt, start, now) && one.Again? {
      AgainInTime(env, p, attempt, start, now);
      EndsWithinOneCall(env, p, attempt + 1, start, one.now, Some(one.e), limit);
    }
  }

  /** After a wrapped error another attempt never starts past the deadline. */
  lemma AgainInTime<V>(env: Environment<V>, p: Policy, attempt: nat, start: real, now: real)
    requires Sane(env, p) && p.deadline.Some? && !env(attempt).outcome.Unwrapped?
    ensures One(env, p, attempt, start, now).Again? ==> One(env, p, attempt, start, now).now <= start + p.deadline.value
  {
  }

  lemma AttemptWithin<V>(env: Environment<V>, p: Policy, attempt: nat, limit: real)
    requires Sane(env, p) && CallsWithin(env, limit)
    ensures 0.0 <= env(attempt).took <= limit && 0.0 <= env(attempt).draw <= Ceiling(p, attempt) <= p.maxDelay
  {
    assert env(attempt).took >= 0.0;
    hide Doubled;
  }

  lemma StartsInTime(p: Policy, attempt: nat, start: real, now: real)
    requires p.deadline.Some?
    ensures Cutoff(p, start) >= start
    ensures !Over(p, attempt, start, now) && attempt > 0 ==> now <= Cutoff(p, start)
  {
  }

  lemma UntilIs<V>(progress: Progress<V>)
    ensures Until(progress) == if progress.Stop? then progress.run.finish else progress.now
  {
  }

  /** With any errors, an unclamped sleep may come on top. */
  lemma {:induction false} EndsWithinOneCallAndSleep<V>(
    env: Environment<V>, p: Policy, attempt: nat, start: real, now: real, last: Option<Error>, limit: real)
    requires p.Valid() && Sane(env, p) && CallsWithin(env, limit) && p.deadline.Some?
    requires start <= now <= Cutoff(p, start) + limit + p.maxDelay && (attempt == 0 ==> now == start)
    ensures now <= Drive(env, p, attempt, start, now, last).finish <= Cutoff(p, start) + limit + p.maxDelay
    decreases p.maxRetries + 1 - attempt
  {
    hide *;
    AttemptWithin(env, p, attempt, limit);
    StartsInTime(p, attempt, start, now);
    DriveStep(env, p, attempt, start, now, last);
    OneTakes(env, p, attempt, start, now);
    UntilIs(One(env, p, attempt, start, now));
    var one := One(env, p, attempt, start, now);
    if !Over(p, attempt, start, now) && one.Again? {
      EndsWithinOneCallAndSleep(env, p, attempt + 1, start, one.now, Some(one.e), limit);
    }
  }

  /** Time before attempt `k` at worst: `k` calls and the sleeps after them. */
  function WorstBefore(p: Policy, limit: real, k: nat): real {
    if k == 0 then 0.0 else WorstBefore(p, limit, k - 1) + limit + Ceiling(p, k - 1)
  }

  function SleepSum(p: Policy, k: nat): real {
    if k == 0 then 0.0 else SleepSum(p, k - 1) + Ceiling(p, k - 1)
  }

  /** The worst total: `(maxRetries + 1)` calls and every sleep between them. */
  function Worst(p: Policy, limit: real): real {
    if p.maxRetries < 0 then 0.0 else WorstBefore(p, limit, p.maxRetries) + limit
  }

  lemma {:induction false} WorstBeforeClosed(p: Policy, limit: real, k: nat)
    ensures WorstBefore(p, limit, k) == k as real * limit + SleepSum(p, k)
  {
    if k > 0 {
      WorstBeforeClosed(p, limit, k - 1);
      assert (k - 1) as real * limit + limit == k as real * limit;
    }
  }

  lemma WorstClosed(p: Policy, limit: real)
    requires p.maxRetries >= 0
    ensures Worst(p, limit) == (p.maxRetries + 1) as real * limit + SleepSum(p, p.maxRetries)
  {
    var n := p.maxRetries;
    WorstBeforeClosed(p, limit, n);
    assert n as real * limit + limit == (n + 1) as real * limit;
  }

  lemma {:induction false} WorstGrows(p: Policy, limit: real, j: nat, k: nat)
    requires p.Valid() && limit >= 0.0 && j <= k
    ensures 0.0 <= WorstBefore(p, limit, j) <= WorstBefore(p, limit, k)
    decreases k
  {
    if j < k {
      WorstGrows(p, limit, j, k - 1);
    } else if k > 0 {
      WorstGrows(p, limit, 0, k - 1);
    }
  }

  /** Deadline or not, a run ends within the worst total. */
  lemma {:induction false} EndsWithinWorst<V>(
    env: Environment<V>, p: Policy, attempt: nat, start: real, now: real, last: Option<Error>, limit: real)
    requires p.Valid() && Sane(env, p) && CallsWithin(env, limit)
    requires now <= start + WorstBefore(p, limit, attempt) && 0 <= attempt <= p.maxRetries
    ensures Drive(env, p, attempt, start, now, last).finish <= start + Worst(p, limit)
    decreases p.maxRetries + 1 - attempt
  {
    assert Worst(p, limit) == WorstBefore(p, limit, p.maxRetries) + limit;
    assert WorstBefore(p, limit, attempt + 1) == WorstBefore(p, limit, attempt) + limit + Ceiling(p, attempt);
    hide *;
    AttemptWithin(env, p, attempt, limit);
    DriveStep(env, p, attempt, start, now, last);
    OneTakes(env, p, attempt, start, now);
    UntilIs(One(env, p, attempt, start, now));
    WorstGrows(p, limit, attempt, p.maxRetries);
    if attempt < p.maxRetries { WorstGrows(p, limit, attempt + 1, p.maxRetries); }
    var one := One(env, p, attempt, start, now);
    if !Over(p, attempt, start, now) && one.Again? {
      EndsWithinWorst(env, p, attempt + 1, start, one.now, Some(one.e), limit);
    }
  }

  /** The total of any admitted run. */
  lemma TotalTime<V>(env: Environment<V>, p: Policy, start: real, limit: real)
    requires p.Valid() && Sane(env, p) && CallsWithin(env, limit)
    ensures var total := Specified(env, p, true, start).finish - start;
            && 0.0 <= total <= Worst(p, limit)
            && (p.deadline.Some? ==>
                  total <= Max(0.0, p.deadline.value) + limit + if AllWrapped(env) then 0.0 else p.maxDelay)
  {
    assert 0.0 <= env(0).took <= limit;
    if p.maxRetries >= 0 {
      EndsWithinWorst(env, p, 0, start, start, None, limit);
    }
    if p.deadline.Some? {
      EndsWithinOneCallAndSleep(env, p, 0, start, start, None, limit);
      if AllWrapped(env) {
        EndsWithinOneCall(env, p, 0, start, start, None, limit);
      }
    } else {
      NeverEarly(env, p, 0, start, start, None);
    }
  }

  lemma {:induction false} NeverEarly<V>(
    env: Environment<V>, p: Policy, attempt: nat, start: real, now: real, last: Option<Error>)
    requires Sane(env, p)
    ensures p.deadline.None? ==> now <= Drive(env, p, attempt, start, now, last).finish
    decreases p.maxRetries + 1 - attempt
  {
    assert 0.0 <= env(attempt).took && 0.0 <= env(attempt).draw;
    if p.deadline.None? && attempt <= p.maxRetries {
      var one := One(env, p, attempt, start, now);
      if one.Again? {
        NeverEarly(env, p, attempt + 1, start, one.now, Some(one.e));
      }
    }
  }
}

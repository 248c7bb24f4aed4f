/** The consecutive-failure circuit breaker, in both services, as a function of its event history. */
module Breaker {

  datatype Mode = Closed | Open | HalfOpen

  /** One call of a public method, with the clock reading it sees. The lock makes each call one event. */
  datatype Event =
    | Allow(now: real)
    | State(now: real)
    | Success(now: real)
    | Failure(now: real)
    | Reset(now: real)

  datatype Settings = Settings(threshold: int, resetAfter: real) {
    /** Opening needs at least one failure, whatever the configured threshold. */
    function Needed(): nat { if threshold < 1 then 1 else threshold }
  }

  /** The three guarded fields. */
  datatype Fields = Fields(failures: nat, mode: Mode, openedAt: real)

  const FRESH := Fields(0, Closed, 0.0)

  function MaybeHalfOpen(c: Settings, f: Fields, now: real): Fields {
    if f.mode == Open && now - f.openedAt >= c.resetAfter then f.(mode := HalfOpen) else f
  }

  function Step(c: Settings, f: Fields, e: Event): Fields {
    match e
    case Allow(now) => MaybeHalfOpen(c, f, now)
    case State(now) => MaybeHalfOpen(c, f, now)
    case Success(_) => f.(failures := 0, mode := Closed)
    case Failure(now) =>
      var counted := f.(failures := f.failures + 1);
      if f.mode == HalfOpen || counted.failures >= c.threshold
      then counted.(mode := Open, openedAt := now)
      else counted
    case Reset(_) => FRESH
  }

  function Run(c: Settings, history: seq<Event>): Fields {
    if history == [] then FRESH
    else Step(c, Run(c, history[..|history| - 1]), history[|history| - 1])
  }

  // ----- The history, read without the state machine -----------------------------------------------

  predicate Monotone(history: seq<Event>) {
    forall i, j :: 0 <= i < j < |history| ==> history[i].now <= history[j].now
  }

  predicate Clears(e: Event) { e.Success? || e.Reset? }

  /** Failures since the last success or reset. */
  function Streak(history: seq<Event>): nat {
    if history == [] then 0
    else
      var last := history[|history| - 1];
      if Clears(last) then 0
      else Streak(history[..|history| - 1]) + if last.Failure? then 1 else 0
  }

  /** When the streak's last failure happened. */
  function LastFailure(history: seq<Event>): real
    requires Streak(history) > 0
  {
    var last := history[|history| - 1];
    if last.Failure? then last.now else LastFailure(history[..|history| - 1])
  }

  /** What each event does to the streak. */
  lemma StreakSteps(history: seq<Event>, e: Event)
    ensures Streak([]) == 0
    ensures Streak(history + [e]) == match e
                                     case Success(_) => 0
                                     case Reset(_) => 0
                                     case Failure(_) => Streak(history) + 1
                                     case Allow(_) => Streak(history)
                                     case State(_) => Streak(history)
  {
    assert (history + [e])[..|history|] == history;
  }

  /** The streak's last failure is in the history, with neither a failure nor a success nor a reset behind it. */
  lemma {:induction false} LastFailureStands(history: seq<Event>) returns (i: nat)
    requires Streak(history) > 0
    ensures i < |history| && history[i] == Failure(LastFailure(history))
    ensures forall j :: i < j < |history| ==> history[j].Allow? || history[j].State?
  {
    i := |history| - 1;
    if !history[i].Failure? {
      i := LastFailureStands(history[..i]);
    }
  }

  /** The mode the history calls for at a time: what `state` must answer. */
  function Due(c: Settings, history: seq<Event>, now: real): Mode {
    if Streak(history) < c.Needed() then Closed
    else if now - LastFailure(history) < c.resetAfter then Open
    else HalfOpen
  }

  /** What the fields remember of the history. */
  ghost predicate Tracks(c: Settings, f: Fields, history: seq<Event>) {
    && f.failures == Streak(history)
    && (f.mode == Closed <==> Streak(history) == 0 || Streak(history) < c.threshold)
    && (f.mode != Closed ==>
          && f.openedAt == LastFailure(history)
          && f.openedAt <= history[|history| - 1].now)
    && (f.mode == HalfOpen ==> history[|history| - 1].now - f.openedAt >= c.resetAfter)
  }

  lemma {:induction false} RunTracks(c: Settings, history: seq<Event>)
    requires Monotone(history)
    ensures Tracks(c, Run(c, history), history)
  {
    if history != [] {
      var init := history[..|history| - 1];
      RunTracks(c, init);
      assert init != [] ==> init[|init| - 1].now <= history[|history| - 1].now;
    }
  }

  /** The breaker refines its history: at any later clock reading it shows the mode the history calls for. */
  lemma ShowsWhatIsDue(c: Settings, history: seq<Event>, now: real)
    requires Monotone(history) && (history != [] ==> history[|history| - 1].now <= now)
    ensures MaybeHalfOpen(c, Run(c, history), now).mode == Due(c, history, now)
  {
    RunTracks(c, history);
  }

  /** Calls are rejected exactly while the streak has reached the threshold and its last failure is recent. */
  lemma RejectsExactly(c: Settings, history: seq<Event>, now: real)
    requires Monotone(history) && (history != [] ==> history[|history| - 1].now <= now)
    ensures MaybeHalfOpen(c, Run(c, history), now).mode == Open
       <==> Streak(history) > 0 && Streak(history) >= c.threshold && now - LastFailure(history) < c.resetAfter
  {
    ShowsWhatIsDue(c, history, now);
  }

  predicate OnlyAsks(events: seq<Event>) {
    forall i :: 0 <= i < |events| ==> events[i].Allow? || events[i].State?
  }

  lemma {:induction false} AskingChangesNothing(history: seq<Event>, asks: seq<Event>)
    requires OnlyAsks(asks)
    ensures Streak(history + asks) == Streak(history)
    ensures Streak(history) > 0 ==> LastFailure(history + asks) == LastFailure(history)
  {
    if asks == [] {
      assert history + asks == history;
    } else {
      assert (history + asks)[..|history + asks| - 1] == history + asks[..|asks| - 1];
      AskingChangesNothing(history, asks[..|asks| - 1]);
    }
  }

  /**
   * After the reset interval every caller is admitted, however many came before it, until one of them
   * reports: half_open does not stop at one trial call.
   */
  lemma HalfOpenAdmitsEveryCaller(c: Settings, history: seq<Event>, asks: seq<Event>, now: real)
    requires Monotone(history + asks) && OnlyAsks(asks)
    requires forall i :: 0 <= i < |history + asks| ==> (history + asks)[i].now <= now
    requires Streak(history) >= c.Needed()
    ensures MaybeHalfOpen(c, Run(c, history + asks), now).mode
         == if now - LastFailure(history) >= c.resetAfter then HalfOpen else Open
  {
    AskingChangesNothing(history, asks);
    ShowsWhatIsDue(c, history + asks, now);
  }

  /** A failed trial call in half_open opens the breaker for another full interval, whatever the streak. */
  lemma FailedTrialReopens(c: Settings, history: seq<Event>, trial: real, later: real)
    requires Monotone(history + [Failure(trial)]) && trial <= later
    requires Streak(history) >= c.Needed()
    ensures MaybeHalfOpen(c, Run(c, history + [Failure(trial)]), later).mode
         == if later - trial < c.resetAfter then Open else HalfOpen
  {
    var h := history + [Failure(trial)];
    assert h[..|history|] == history;
    ShowsWhatIsDue(c, h, later);
  }

  lemma RunExtends(c: Settings, history: seq<Event>, e: Event)
    requires Monotone(history) && (history != [] ==> history[|history| - 1].now <= e.now)
    ensures Run(c, history + [e]) == Step(c, Run(c, history), e) && Monotone(history + [e])
  {
    assert (history + [e])[..|history|] == history;
  }

  lemma SettlingShowsWhatIsDue(c: Settings, history: seq<Event>, e: Event, now: real)
    requires Monotone(history) && (history != [] ==> history[|history| - 1].now <= now)
    requires e in {Allow(now), State(now)}
    ensures Run(c, history + [e]) == MaybeHalfOpen(c, Run(c, history), now) && Monotone(history + [e])
    ensures MaybeHalfOpen(c, Run(c, history), now).mode == Due(c, history, now)
    ensures Run(c, history).failures == Streak(history)
  {
    ShowsWhatIsDue(c, history, now);
    RunTracks(c, history);
    RunExtends(c, history, e);
    hide Run, Due, Streak, LastFailure, Monotone;
  }

  class CircuitBreaker {
    const settings: Settings
    var failures: nat
    var mode: Mode
    var openedAt: real
    /** Every call so far. */
    ghost var history: seq<Event>

    ghost predicate Valid()
      reads this
    {
      Monotone(history) && Fields(failures, mode, openedAt) == Run(settings, history)
    }

    /** The clock is monotone: it never reads earlier than at the last call. */
    ghost predicate Ready(now: real)
      reads this
    {
      Valid() && (history != [] ==> history[|history| - 1].now <= now)
    }

    constructor (settings: Settings)
      ensures Valid() && history == [] && this.settings == settings
      ensures failures == 0 && mode == Closed
    {
      this.settings := settings;
      failures, mode, openedAt := 0, Closed, 0.0;
      history := [];
    }

    /** `_maybe_half_open` under the lock, on behalf of `allow` or `state`. */
    method Settle(ghost e: Event, now: real)
      requires Ready(now) && e in {Allow(now), State(now)}
      modifies this
      ensures Valid() && history == old(history) + [e]
      ensures mode == Due(settings, old(history), now)
      ensures failures == Streak(old(history))
    {
      hide Run, Step, Due, Streak, LastFailure, Monotone;
      SettlingShowsWhatIsDue(settings, history, e, now);
      if mode == Open && now - openedAt >= settings.resetAfter {
        mode := HalfOpen;
      }
      history := history + [e];
    }

    /** Admission: false exactly when the history calls for an open circuit. */
    method CallAllowed(now: real) returns (ok: bool)
      requires Ready(now)
      modifies this
      ensures Valid() && history == old(history) + [Allow(now)]
      ensures ok <==> !(Streak(old(history)) > 0 && Streak(old(history)) >= settings.threshold
                        && now - LastFailure(old(history)) < settings.resetAfter)
    {
      Settle(Allow(now), now);
      return mode == Closed || mode == HalfOpen;
    }

    method ReadState(now: real) returns (m: Mode)
      requires Ready(now)
      modifies this
      ensures Valid() && history == old(history) + [State(now)]
      ensures m == Due(settings, old(history), now)
    {
      Settle(State(now), now);
      return mode;
    }

    method RecordSuccess(now: real)
      requires Ready(now)
      modifies this
      ensures Valid() && history == old(history) + [Success(now)]
      ensures failures == 0 && mode == Closed
    {
      RunExtends(settings, history, Success(now));
      hide Run;
      failures := 0;
      mode := Closed;
      history := history + [Success(now)];
    }

    method RecordFailure(now: real)
      requires Ready(now)
      modifies this
      ensures Valid() && history == old(history) + [Failure(now)]
      ensures failures == Streak(old(history)) + 1
      ensures mode == Open <==> failures >= settings.Needed()
      ensures mode == Open ==> openedAt == now
    {
      RunTracks(settings, history);
      RunExtends(settings, history, Failure(now));
      hide Run, Streak, LastFailure;
      failures := failures + 1;
      if mode == HalfOpen || failures >= settings.threshold {
        mode := Open;
        openedAt := now;
      }
      history := history + [Failure(now)];
    }

    method ResetNow(now: real)
      requires Ready(now)
      modifies this
      ensures Valid() && history == old(history) + [Reset(now)]
      ensures failures == 0 && mode == Closed && openedAt == 0.0
    {
      RunExtends(settings, history, Reset(now));
      hide Run;
      failures := 0;
      mode := Closed;
      openedAt := 0.0;
      history := history + [Reset(now)];
    }
  }
}

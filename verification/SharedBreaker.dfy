/**
 * Several callers behind one breaker. A turn is what one caller does under the breaker's lock or between
 * two of its uses: its admission, one attempt with the record of its result, or giving up. Any sequence of
 * turns is one way the callers of a service can interleave.
 */
module SharedBreaker {
  import opened Wrappers
  import opened Breaker
  import opened Retry

  /** What one caller runs. */
  datatype Job<!V> = Job(env: Environment<V>, policy: Policy)

  /** `asked` is where the caller's admission stands in the breaker's history. */
  datatype Caller<V> =
    | Idle
    | Looping(asked: nat, start: real, attempt: nat, now: real, last: Option<Error>, trace: seq<Retry.Event<V>>)
    | Done(asked: nat, start: real, admitted: bool, run: Retry.Run<V>)
  {
    function Trace(): seq<Retry.Event<V>> {
      if Idle? then [] else if Looping? then trace else run.trace
    }
  }

  datatype World<V> = World(callers: seq<Caller<V>>, history: seq<Breaker.Event>)

  datatype Turn = Turn(who: nat, at: real)

  function Fresh<V>(n: nat): World<V> {
    World(seq(n, _ => Idle), [])
  }

  /** The caller's next state, and what it reports to the breaker on the way. */
  function Advance<V>(c: Settings, job: Job<V>, caller: Caller<V>, history: seq<Breaker.Event>, at: real)
    : (Caller<V>, seq<Breaker.Event>)
  {
    match caller
    case Idle =>
      if Due(c, history, at) != Open then (Looping(|history|, at, 0, at, None, []), [Allow(at)])
      else (Done(|history|, at, false, Run([], Raised(CircuitOpenError("circuit is open")), at)), [Allow(at)])
    case Looping(asked, start, attempt, now, last, trace) =>
      if attempt > job.policy.maxRetries || (attempt > 0 && OutOfTime(job.policy, start, now)) then
        (Done(asked, start, true, Run(trace, Raised(Exhausted(last)), now)), [])
      else
        (match One(job.env, job.policy, attempt, start, now)
         case Stop(run) => (Done(asked, start, true, run.After(trace)), Reports(run.trace))
         case Again(events, now', e) =>
           (Looping(asked, start, attempt + 1, now', Some(e), trace + events), Reports(events)))
    case Done(_, _, _, _) => (caller, [])
  }

  function Take<V>(c: Settings, jobs: seq<Job<V>>, w: World<V>, turn: Turn): (w': World<V>)
    requires |w.callers| == |jobs|
    ensures |w'.callers| == |jobs|
  {
    if turn.who >= |jobs| then w
    else
      var (caller, reports) := Advance(c, jobs[turn.who], w.callers[turn.who], w.history, turn.at);
      World(w.callers[turn.who := caller], w.history + reports)
  }

  function Play<V>(c: Settings, jobs: seq<Job<V>>, turns: seq<Turn>): (w: World<V>)
    ensures |w.callers| == |jobs|
  {
    if turns == [] then Fresh(|jobs|)
    else Take(c, jobs, Play(c, jobs, turns[..|turns| - 1]), turns[|turns| - 1])
  }

  /** The admission a caller has got is the one the history before it calls for. */
  predicate AskedInTurn<V>(c: Settings, caller: Caller<V>, history: seq<Breaker.Event>) {
    !caller.Idle? ==>
      && caller.asked < |history| && history[caller.asked] == Allow(caller.start)
      && (Due(c, history[..caller.asked], caller.start) != Open <==> (caller.Looping? || caller.admitted))
  }

  /** The caller is on the way of its own run, or at its end. */
  ghost predicate OnItsWay<V>(job: Job<V>, caller: Caller<V>) {
    match caller
    case Idle => true
    case Looping(_, start, attempt, now, last, trace) =>
      Drive(job.env, job.policy, attempt, start, now, last).After(trace) == Specified(job.env, job.policy, true, start)
    case Done(_, start, admitted, run) => run == Specified(job.env, job.policy, admitted, start)
  }

  lemma AdvanceKeepsWay<V>(c: Settings, job: Job<V>, caller: Caller<V>, history: seq<Breaker.Event>, at: real)
    requires OnItsWay(job, caller)
    ensures OnItsWay(job, Advance(c, job, caller, history, at).0)
  {
    hide Due, Reports, One;
    match caller
    case Idle =>
      var r := Specified(job.env, job.policy, true, at);
      assert [] + r.trace == r.trace;
    case Looping(asked, start, attempt, now, last, trace) =>
      if attempt > job.policy.maxRetries || (attempt > 0 && OutOfTime(job.policy, start, now)) {
        assert trace + [] == trace;
      } else {
        var one := One(job.env, job.policy, attempt, start, now);
        if one.Again? {
          AfterAfter(Drive(job.env, job.policy, attempt + 1, start, one.now, Some(one.e)), one.events, trace);
        }
      }
    case Done(_, _, _, _) =>
  }

  lemma AdvanceKeepsTurn<V>(c: Settings, job: Job<V>, caller: Caller<V>, history: seq<Breaker.Event>, at: real)
    requires AskedInTurn(c, caller, history)
    ensures var (next, reports) := Advance(c, job, caller, history, at);
            AskedInTurn(c, next, history + reports)
  {
    var (next, reports) := Advance(c, job, caller, history, at);
    var more := history + reports;
    if caller.Idle? {
      assert more[..|history|] == history;
    } else {
      assert more[..caller.asked] == history[..caller.asked];
    }
    hide Due, Reports, One;
  }

  lemma TurnKept<V>(c: Settings, caller: Caller<V>, history: seq<Breaker.Event>, reports: seq<Breaker.Event>)
    requires AskedInTurn(c, caller, history)
    ensures AskedInTurn(c, caller, history + reports)
  {
    if !caller.Idle? {
      assert (history + reports)[..caller.asked] == history[..caller.asked];
    }
    hide Due;
  }

  /**
   * However the callers interleave, each one's run is the run of the driver alone: its trace, ending and
   * finish depend on the shared breaker only through the answer to its own admission.
   */
  lemma {:induction false} CallersRunAlone<V>(c: Settings, jobs: seq<Job<V>>, turns: seq<Turn>, i: nat)
    requires i < |jobs|
    ensures var w := Play(c, jobs, turns);
            OnItsWay(jobs[i], w.callers[i]) && AskedInTurn(c, w.callers[i], w.history)
  {
    if turns != [] {
      var before, turn := turns[..|turns| - 1], turns[|turns| - 1];
      CallersRunAlone(c, jobs, before, i);
      var w := Play(c, jobs, before);
      if turn.who == i {
        AdvanceKeepsWay(c, jobs[i], w.callers[i], w.history, turn.at);
        AdvanceKeepsTurn(c, jobs[i], w.callers[i], w.history, turn.at);
      } else if turn.who < |jobs| {
        TurnKept(c, w.callers[i], w.history, Advance(c, jobs[turn.who], w.callers[turn.who], w.history, turn.at).1);
      }
      hide OnItsWay, AskedInTurn, Advance;
    }
  }

  /** When the turns follow the clock, that answer is the one the breaker's fields give. */
  lemma AdmittedByTheFields<V>(c: Settings, jobs: seq<Job<V>>, turns: seq<Turn>, i: nat)
    requires i < |jobs| && Monotone(Play(c, jobs, turns).history) && !Play(c, jobs, turns).callers[i].Idle?
    ensures var w := Play(c, jobs, turns); var caller := w.callers[i];
            && caller.asked < |w.history|
            && (MaybeHalfOpen(c, Breaker.Run(c, w.history[..caller.asked]), caller.start).mode != Open
                <==> caller.Looping? || caller.admitted)
  {
    CallersRunAlone(c, jobs, turns, i);
    var w := Play(c, jobs, turns);
    var caller := w.callers[i];
    var earlier := w.history[..caller.asked];
    assert forall k :: 0 <= k < |earlier| ==> earlier[k] == w.history[k];
    assert w.history[caller.asked] == Allow(caller.start);
    ShowsWhatIsDue(c, earlier, caller.start);
    hide Play, Due, MaybeHalfOpen, Breaker.Run, OnItsWay;
  }

  // ----- Every caller comes to its end ----------------------------------------------------------------------

  /** How many turns of its own a caller still needs at most. */
  function Remaining<V>(job: Job<V>, caller: Caller<V>): nat {
    match caller
    case Idle => if job.policy.maxRetries < 0 then 2 else job.policy.maxRetries + 3
    case Looping(_, _, attempt, _, _, _) =>
      if attempt > job.policy.maxRetries then 1 else job.policy.maxRetries + 2 - attempt
    case Done(_, _, _, _) => 0
  }

  function TurnsOf(turns: seq<Turn>, i: nat): nat {
    if turns == [] then 0
    else TurnsOf(turns[..|turns| - 1], i) + if turns[|turns| - 1].who == i then 1 else 0
  }

  lemma AdvanceMovesOn<V>(c: Settings, job: Job<V>, caller: Caller<V>, history: seq<Breaker.Event>, at: real)
    ensures !caller.Done? ==> Remaining(job, Advance(c, job, caller, history, at).0) < Remaining(job, caller)
    ensures caller.Done? ==> Advance(c, job, caller, history, at) == (caller, [])
  {
    hide Due, Reports;
  }

  /** A caller that has had two turns more than its policy allows attempts is done, whatever the others do. */
  lemma {:induction false} EnoughTurnsFinish<V>(c: Settings, jobs: seq<Job<V>>, turns: seq<Turn>, i: nat)
    requires i < |jobs|
    ensures var caller := Play(c, jobs, turns).callers[i];
            caller.Done? || TurnsOf(turns, i) + Remaining(jobs[i], caller) <= Remaining(jobs[i], Idle)
    ensures TurnsOf(turns, i) >= (if jobs[i].policy.maxRetries < 0 then 2 else jobs[i].policy.maxRetries + 3) ==>
              Play(c, jobs, turns).callers[i].Done?
  {
    if turns != [] {
      var before, turn := turns[..|turns| - 1], turns[|turns| - 1];
      EnoughTurnsFinish(c, jobs, before, i);
      var w := Play(c, jobs, before);
      if turn.who == i {
        AdvanceMovesOn(c, jobs[i], w.callers[i], w.history, turn.at);
      }
      hide Advance;
    }
  }

  // ----- Nothing is recorded but what some run reports ----------------------------------------------------

  /** The history without the questions asked. */
  function Records(history: seq<Breaker.Event>): multiset<Breaker.Event> {
    if history == [] then multiset{}
    else
      var last := history[|history| - 1];
      Records(history[..|history| - 1]) + if last.Success? || last.Failure? then multiset{last} else multiset{}
  }

  function AllReports<V>(callers: seq<Caller<V>>): multiset<Breaker.Event> {
    if callers == [] then multiset{}
    else AllReports(callers[..|callers| - 1]) + multiset(Reports(callers[|callers| - 1].Trace()))
  }

  lemma {:induction false} RecordsAppend(a: seq<Breaker.Event>, b: seq<Breaker.Event>)
    ensures Records(a + b) == Records(a) + Records(b)
  {
    if b == [] {
      assert a + b == a;
    } else {
      assert (a + b)[..|a + b| - 1] == a + b[..|b| - 1];
      RecordsAppend(a, b[..|b| - 1]);
    }
  }

  /** What the first event of a trace reports. */
  lemma FirstReport<V>(trace: seq<Retry.Event<V>>) returns (first: seq<Breaker.Event>)
    requires trace != []
    ensures Reports(trace) == first + Reports(trace[1..]) && Records(first) == multiset(first)
  {
    first := match trace[0]
      case RecordedSuccess(at) => [Breaker.Success(at)]
      case RecordedFailure(at) => [Breaker.Failure(at)]
      case _ => [];
    assert first != [] ==> first == [first[0]] && first[..0] == [];
  }

  lemma {:induction false} ReportsAreRecords<V>(trace: seq<Retry.Event<V>>)
    ensures Records(Reports(trace)) == multiset(Reports(trace))
  {
    if trace != [] {
      var first := FirstReport(trace);
      hide *;
      ReportsAreRecords(trace[1..]);
      RecordsAppend(first, Reports(trace[1..]));
    }
  }

  lemma AllReportsSnoc<V>(callers: seq<Caller<V>>, last: Caller<V>)
    ensures AllReports(callers + [last]) == AllReports(callers) + multiset(Reports(last.Trace()))
  {
    assert (callers + [last])[..|callers|] == callers;
  }

  lemma {:induction false} AllReportsOfUpdate<V>(callers: seq<Caller<V>>, i: nat, caller: Caller<V>)
    requires i < |callers|
    ensures AllReports(callers[i := caller]) + multiset(Reports(callers[i].Trace()))
         == AllReports(callers) + multiset(Reports(caller.Trace()))
  {
    hide *;
    var n := |callers| - 1;
    var before, last := callers[..n], callers[n];
    assert callers == before + [last];
    AllReportsSnoc(before, last);
    if i < n {
      AllReportsOfUpdate(before, i, caller);
      AllReportsSnoc(before[i := caller], last);
      assert callers[i := caller] == before[i := caller] + [last] && before[i] == callers[i];
      Reorders(AllReports(before[i := caller]), multiset(Reports(callers[i].Trace())), AllReports(before),
               multiset(Reports(caller.Trace())), multiset(Reports(last.Trace())));
    } else {
      AllReportsSnoc(before, caller);
      assert callers[i := caller] == before + [caller];
    }
  }

  lemma Reorders<T>(a': multiset<T>, was: multiset<T>, a: multiset<T>, now: multiset<T>, last: multiset<T>)
    requires a' + was == a + now
    ensures a' + last + was == a + last + now
  {
    assert a' + last + was == (a' + was) + last && a + last + now == (a + now) + last;
  }

  lemma Cancels<T>(all': multiset<T>, was: multiset<T>, all: multiset<T>, now: multiset<T>, more: multiset<T>)
    requires all' + was == all + now && now == was + more
    ensures all' == all + more
  {
    assert all' == (all' + was) - was;
  }

  /** A turn adds to the caller's trace what it reports. */
  lemma AdvanceReports<V>(c: Settings, job: Job<V>, caller: Caller<V>, history: seq<Breaker.Event>, at: real)
    ensures var (next, reports) := Advance(c, job, caller, history, at);
            multiset(Reports(next.Trace())) == multiset(Reports(caller.Trace())) + Records(reports)
  {
    var (next, reports) := Advance(c, job, caller, history, at);
    if caller.Idle? {
      assert reports == [Allow(at)] && reports[..0] == [];
    } else if caller.Looping? && next.Looping? {
      var events := One(job.env, job.policy, caller.attempt, caller.start, caller.now).events;
      ReportsAppend(caller.trace, events);
      ReportsAreRecords(events);
    } else if caller.Looping? && reports != [] {
      var run := One(job.env, job.policy, caller.attempt, caller.start, caller.now).run;
      ReportsAppend(caller.trace, run.trace);
      ReportsAreRecords(run.trace);
    } else if caller.Looping? {
      LastTurn(c, job, caller, history, at);
    }
  }

  lemma LastTurn<V>(c: Settings, job: Job<V>, caller: Caller<V>, history: seq<Breaker.Event>, at: real)
    requires caller.Looping? && Advance(c, job, caller, history, at).1 == []
    requires !Advance(c, job, caller, history, at).0.Looping?
    ensures Reports(Advance(c, job, caller, history, at).0.Trace()) == Reports(caller.trace)
  {
    if !(caller.attempt > job.policy.maxRetries || (caller.attempt > 0 && OutOfTime(job.policy, caller.start, caller.now))) {
      var run := One(job.env, job.policy, caller.attempt, caller.start, caller.now).run;
      ReportsAppend(caller.trace, run.trace);
    }
  }

  lemma {:induction false} FreshReportsNothing<V>(n: nat)
    ensures AllReports(Fresh<V>(n).callers) == multiset{}
  {
    if n > 0 {
      FreshReportsNothing<V>(n - 1);
      assert Fresh<V>(n).callers[..n - 1] == Fresh<V>(n - 1).callers;
    }
  }

  /** The records in the breaker's history are those of the callers' runs, each exactly once. */
  lemma {:induction false} HistoryIsWhatRunsReport<V>(c: Settings, jobs: seq<Job<V>>, turns: seq<Turn>)
    ensures var w := Play(c, jobs, turns); Records(w.history) == AllReports(w.callers)
  {
    if turns == [] {
      FreshReportsNothing<V>(|jobs|);
    } else {
      var before, turn := turns[..|turns| - 1], turns[|turns| - 1];
      HistoryIsWhatRunsReport(c, jobs, before);
      TakeReports(c, jobs, Play(c, jobs, before), turn);
    }
  }

  lemma TakeReports<V>(c: Settings, jobs: seq<Job<V>>, w: World<V>, turn: Turn)
    requires |w.callers| == |jobs| && Records(w.history) == AllReports(w.callers)
    ensures var w' := Take(c, jobs, w, turn); Records(w'.history) == AllReports(w'.callers)
  {
    if turn.who < |jobs| {
      var caller := w.callers[turn.who];
      var (next, reports) := Advance(c, jobs[turn.who], caller, w.history, turn.at);
      assert Take(c, jobs, w, turn) == World(w.callers[turn.who := next], w.history + reports);
      hide *;
      AdvanceReports(c, jobs[turn.who], caller, w.history, turn.at);
      AllReportsOfUpdate(w.callers, turn.who, next);
      RecordsAppend(w.history, reports);
      Cancels(AllReports(w.callers[turn.who := next]), multiset(Reports(caller.Trace())), AllReports(w.callers),
              multiset(Reports(next.Trace())), Records(reports));
    }
  }
}

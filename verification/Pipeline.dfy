/** The pipeline of one job as a state machine. */
module Pipeline {
  import opened Wrappers

  // One step is one stretch of code between two `await`s, so a sequence of steps is one interleaving the
  // event loop can choose.

  datatype Stage = Classify | Extract | Summarize | Risk

  datatype PerStage<T> = PerStage(classify: T, extract: T, summarize: T, risk: T)
  {
    function Of(stage: Stage): T {
      match stage
      case Classify => classify
      case Extract => extract
      case Summarize => summarize
      case Risk => risk
    }

    function With(stage: Stage, t: T): PerStage<T> {
      match stage
      case Classify => this.(classify := t)
      case Extract => this.(extract := t)
      case Summarize => this.(summarize := t)
      case Risk => this.(risk := t)
    }
  }

  /** What an enrichment call brings: an exception, or a response. `usable` says that
    * a summary is neither insufficient nor blank, `saved` that its row is written. */
  datatype Answer = Fails | Responds(degraded: bool, usable: bool, saved: bool)

  /** Everything the environment decides about one job. */
  datatype Script = Script(fetch: bool, parse: bool, answers: PerStage<Answer>, index: bool)

  datatype Task = Ready | Awaiting | Finished | Raised | Cancelled

  /** Where `run` stands. `Stopped` is a run ended by `CancelledError`. */
  datatype Place = Fetching | Parsing | Classifying | Gathering | Indexing | Returned | Failed | Stopped

  datatype Mark = Began(stage: Stage) | Ended(stage: Stage) | IndexCalled

  datatype State = State(
    at: Place, tasks: PerStage<Task>, skipped: seq<Stage>, degraded: bool, log: seq<Mark>)

  const INITIAL := State(Fetching, PerStage(Ready, Ready, Ready, Ready), [], false, [])

  /** A step of `run` itself, a step of one gathered task, or a cancellation. */
  datatype Step = Main | Gathered(stage: Stage) | Cancel

  // ---- One enrichment stage ----

  /** The stage is listed in `skipped_stages`. */
  predicate Skips(stage: Stage, a: Answer) {
    a.Fails? || (stage == Summarize && !a.usable)
  }

  /** The stage ends without an exception. */
  predicate Ends(stage: Stage, a: Answer) {
    Skips(stage, a) || a.saved
  }

  function Begin(s: State, stage: Stage): State {
    s.(tasks := s.tasks.With(stage, Awaiting), log := s.log + [Began(stage)])
  }

  function Finish(s: State, stage: Stage, a: Answer): State {
    s.(tasks := s.tasks.With(stage, if Ends(stage, a) then Finished else Raised),
       skipped := if Skips(stage, a) then s.skipped + [stage] else s.skipped,
       degraded := s.degraded || (a.Responds? && a.degraded),
       log := s.log + [Ended(stage)])
  }

  function Advance(script: Script, s: State, stage: Stage): Option<State> {
    match s.tasks.Of(stage)
    case Ready => Some(Begin(s, stage))
    case Awaiting => Some(Finish(s, stage, script.answers.Of(stage)))
    case _ => None
  }

  // ---- The run ----

  function Next(script: Script, s: State, step: Step): Option<State> {
    match step
    case Main => Spine(script, s)
    case Gathered(stage) =>
      // A failed gather leaves its other tasks running.
      if stage != Classify && s.at in {Gathering, Failed} && s.tasks.classify == Finished
      then Advance(script, s, stage) else None
    case Cancel =>
      if s.at in {Returned, Failed, Stopped} then None
      else Some(s.(at := Stopped, tasks := PerStage(
        Stop(s.tasks.classify), Stop(s.tasks.extract), Stop(s.tasks.summarize), Stop(s.tasks.risk))))
  }

  function Stop(t: Task): Task {
    if t in {Ready, Awaiting} then Cancelled else t
  }

  predicate SomeGathered(t: PerStage<Task>, task: Task) {
    t.extract == task || t.summarize == task || t.risk == task
  }

  function Spine(script: Script, s: State): Option<State> {
    match s.at
    case Fetching => Some(s.(at := if script.fetch then Parsing else Failed))
    case Parsing => Some(s.(at := if script.parse then Classifying else Failed))
    case Classifying =>
      (match Advance(script, s, Classify)
       case None => None
       case Some(t) => Some(t.(at := if t.tasks.classify == Finished then Gathering
                                     else if t.tasks.classify == Raised then Failed else Classifying)))
    case Gathering =>
      if SomeGathered(s.tasks, Raised) then Some(s.(at := Failed))
      else if s.tasks.extract == s.tasks.summarize == s.tasks.risk == Finished then
        Some(s.(at := Indexing, log := s.log + [IndexCalled]))
      else None
    case Indexing => Some(s.(at := if script.index then Returned else Failed))
    case _ => None
  }

  /** The state after a schedule; `None` when it asks for a step that is not enabled. */
  function Run(script: Script, steps: seq<Step>): Option<State> {
    if steps == [] then Some(INITIAL)
    else
      match Run(script, steps[..|steps| - 1])
      case None => None
      case Some(s) => Next(script, s, steps[|steps| - 1])
  }

  // ---- What every reachable state satisfies ----

  predicate Over(t: Task) {
    t == Finished || t == Raised
  }

  ghost predicate SkippedSoFar(script: Script, s: State) {
    && (forall i, j :: 0 <= i < j < |s.skipped| ==> s.skipped[i] != s.skipped[j])
    && forall stage ::
         var a := script.answers.Of(stage);
         stage in s.skipped <==> Over(s.tasks.Of(stage)) && (a.Fails? || (stage == Summarize && !a.usable))
  }

  predicate Degrades(script: Script, s: State, stage: Stage) {
    var a := script.answers.Of(stage);
    Over(s.tasks.Of(stage)) && a.Responds? && a.degraded
  }

  ghost predicate TasksTell(script: Script, s: State) {
    forall stage ::
      && (s.tasks.Of(stage) == Finished ==> Absorbed(stage, script.answers.Of(stage)))
      && (s.tasks.Of(stage) == Raised ==> !Absorbed(stage, script.answers.Of(stage)))
  }

  /** An enrichment stage lets the job go on: its call failed, its summary says nothing, or its row is written. */
  predicate Absorbed(stage: Stage, a: Answer) {
    match a
    case Fails => true
    case Responds(_, usable, saved) => saved || (stage == Summarize && !usable)
  }

  /** Where the run stands agrees with what its tasks have done. */
  predicate Placed(script: Script, s: State) {
    var t := s.tasks;
    match s.at
    case Fetching => t == INITIAL.tasks
    case Parsing => t == INITIAL.tasks && script.fetch
    case Classifying =>
      t.classify in {Ready, Awaiting} && t.With(Classify, Ready) == INITIAL.tasks && script.fetch && script.parse
    case Gathering =>
      && script.fetch && script.parse && t.classify == Finished
      && !SomeGathered(t, Cancelled)
    case Indexing => script.fetch && script.parse && t == PerStage(Finished, Finished, Finished, Finished)
    case Returned =>
      script.fetch && script.parse && script.index && t == PerStage(Finished, Finished, Finished, Finished)
    case Failed =>
      || !script.fetch || !script.parse || t.classify == Raised || SomeGathered(t, Raised)
      || (t == PerStage(Finished, Finished, Finished, Finished) && !script.index)
    case Stopped => true
  }

  /** Which marks a task has left; no stage begins without a fetched and parsed document. */
  ghost predicate MarksTell(script: Script, s: State) {
    forall stage ::
      && (Ended(stage) in s.log <==> Over(s.tasks.Of(stage)))
      && (Began(stage) in s.log ==> s.tasks.Of(stage) != Ready)
      && (s.tasks.Of(stage) in {Awaiting, Finished, Raised} ==> Began(stage) in s.log)
      && (Began(stage) in s.log ==> script.fetch && script.parse)
  }

  /** Marks: tasks are where their marks say, every mark stands there once, and each behind those it waits for. */
  ghost predicate Logged(script: Script, s: State) {
    && MarksTell(script, s)
    && (IndexCalled in s.log ==> s.at in {Indexing, Returned, Failed, Stopped})
    && (s.at in {Indexing, Returned} ==> IndexCalled in s.log)
    && (forall i, j :: 0 <= i < j < |s.log| ==> s.log[i] != s.log[j])
    && forall i: nat :: i < |s.log| ==> Waited(s.log, i)
  }

  /** A stage ends after it began; a gathered stage begins after classification ended; the index call follows all ends. */
  ghost predicate Waited(log: seq<Mark>, i: nat)
    requires i < |log|
  {
    match log[i]
    case Began(stage) => stage != Classify ==> Ended(Classify) in log[..i]
    case Ended(stage) => Began(stage) in log[..i]
    case IndexCalled => forall stage :: Ended(stage) in log[..i]
  }

  ghost predicate Invariant(script: Script, s: State) {
    && SkippedSoFar(script, s)
    && (s.degraded <==> exists stage :: Degrades(script, s, stage))
    && TasksTell(script, s) && Placed(script, s) && Logged(script, s)
  }

  lemma InitialInvariant(script: Script)
    ensures Invariant(script, INITIAL)
  {
  }

  /** The bookkeeping half of the invariant, which does not ask where the run stands. */
  ghost predicate Kept(script: Script, s: State) {
    && SkippedSoFar(script, s)
    && (s.degraded <==> exists stage :: Degrades(script, s, stage))
    && TasksTell(script, s)
    && MarksTell(script, s)
  }

  lemma BeginKeeps(script: Script, s: State, stage: Stage)
    requires Kept(script, s) && s.tasks.Of(stage) == Ready && script.fetch && script.parse
    ensures Kept(script, Begin(s, stage))
  {
    var t := Begin(s, stage);
    assert forall other :: t.tasks.Of(other) == if other == stage then Awaiting else s.tasks.Of(other);
    assert forall other :: Degrades(script, t, other) <==> Degrades(script, s, other);
  }

  lemma FinishKeeps(script: Script, s: State, stage: Stage)
    requires Kept(script, s) && s.tasks.Of(stage) == Awaiting
    ensures Kept(script, Finish(s, stage, script.answers.Of(stage)))
  {
    var a := script.answers.Of(stage);
    var t := Finish(s, stage, a);
    assert forall other :: other != stage ==> t.tasks.Of(other) == s.tasks.Of(other);
    assert forall other :: other != stage ==> (Degrades(script, t, other) <==> Degrades(script, s, other));
    assert Degrades(script, t, stage) <==> a.Responds? && a.degraded;
    assert !Degrades(script, s, stage);
  }

  lemma AdvanceKeeps(script: Script, s: State, stage: Stage)
    requires Kept(script, s) && Advance(script, s, stage).Some? && script.fetch && script.parse
    ensures Kept(script, Advance(script, s, stage).value)
  {
    if s.tasks.Of(stage) == Ready {
      BeginKeeps(script, s, stage);
    } else {
      FinishKeeps(script, s, stage);
    }
  }

  /** Where the run stands, and a mark that ends no stage, are nothing to the bookkeeping. */
  lemma MovingKeeps(script: Script, s: State, t: State)
    requires Kept(script, s) && t.tasks == s.tasks && t.skipped == s.skipped && t.degraded == s.degraded
    requires t.log == s.log || t.log == s.log + [IndexCalled]
    ensures Kept(script, t)
  {
    assert forall stage :: Degrades(script, t, stage) <==> Degrades(script, s, stage);
    assert forall mark :: mark != IndexCalled ==> (mark in t.log <==> mark in s.log);
    hide Over, Absorbed;
  }

  lemma CancellingKeeps(script: Script, s: State, t: State)
    requires Kept(script, s) && t.skipped == s.skipped && t.degraded == s.degraded && t.log == s.log
    requires forall stage :: t.tasks.Of(stage) == Stop(s.tasks.Of(stage))
    ensures Kept(script, t)
  {
    assert forall stage :: Over(t.tasks.Of(stage)) <==> Over(s.tasks.Of(stage));
    assert forall stage :: Degrades(script, t, stage) <==> Degrades(script, s, stage);
    hide Absorbed;
  }

  lemma NextKeeps(script: Script, s: State, step: Step)
    requires Kept(script, s) && Placed(script, s) && Next(script, s, step).Some?
    ensures Kept(script, Next(script, s, step).value)
  {
    var t := Next(script, s, step).value;
    match step
    case Gathered(stage) =>
      assert s.tasks.Of(Classify) == s.tasks.classify;
      AdvanceKeeps(script, s, stage);
    case Cancel =>
      assert forall stage :: t.tasks.Of(stage) == Stop(s.tasks.Of(stage));
      hide Kept;
      CancellingKeeps(script, s, t);
    case Main =>
      if s.at == Classifying {
        AdvanceKeeps(script, s, Classify);
        var u := Advance(script, s, Classify).value;
        assert t == u.(at := t.at);
        hide *;
        MovingKeeps(script, u, t);
      } else {
        assert t.log == s.log || t.log == s.log + [IndexCalled];
        assert t == s.(at := t.at, log := t.log);
        hide *;
        MovingKeeps(script, s, t);
      }
  }

  lemma NextIsPlaced(script: Script, s: State, step: Step)
    requires TasksTell(script, s) && Placed(script, s) && Next(script, s, step).Some?
    ensures Placed(script, Next(script, s, step).value)
  {
    var t := Next(script, s, step).value;
    match step
    case Main =>
    case Gathered(stage) =>
    case Cancel => assert t.at == Stopped;
  }

  /** The awaited stage is ready for its mark. */
  predicate Follows(s: State, mark: Mark) {
    match mark
    case Began(stage) => s.tasks.Of(stage) == Ready && (stage != Classify ==> s.tasks.classify == Finished)
    case Ended(stage) => s.tasks.Of(stage) == Awaiting
    case IndexCalled => s.at == Gathering && s.tasks == PerStage(Finished, Finished, Finished, Finished)
  }

  /** A step adds at most one mark, and only one whose time has come. */
  lemma NextMarks(script: Script, s: State, step: Step)
    requires Placed(script, s) && Next(script, s, step).Some?
    ensures var t := Next(script, s, step).value;
            && (t.log == s.log || exists mark :: t.log == s.log + [mark] && Follows(s, mark)
                                                 && (mark == IndexCalled ==> t.at == Indexing))
            && (s.at in {Indexing, Returned, Failed, Stopped} ==> t.at in {Indexing, Returned, Failed, Stopped})
            && (t.at in {Indexing, Returned} ==> s.at in {Indexing, Returned} || t.log == s.log + [IndexCalled])
  {
    var t := Next(script, s, step).value;
    match step
    case Main =>
      if s.at == Gathering && t.at == Indexing {
        assert t.log == s.log + [IndexCalled] && Follows(s, IndexCalled);
      } else if s.at == Classifying {
        AdvanceMarks(script, s, Classify);
      }
    case Gathered(stage) => AdvanceMarks(script, s, stage);
    case Cancel => assert t.log == s.log;
  }

  lemma AdvanceMarks(script: Script, s: State, stage: Stage)
    requires Advance(script, s, stage).Some? && (stage != Classify ==> s.tasks.classify == Finished)
    ensures exists mark :: Advance(script, s, stage).value.log == s.log + [mark] && Follows(s, mark) && mark != IndexCalled
  {
    var log := Advance(script, s, stage).value.log;
    if s.tasks.Of(stage) == Ready {
      assert log == s.log + [Began(stage)] && Follows(s, Began(stage));
    } else {
      assert log == s.log + [Ended(stage)] && Follows(s, Ended(stage));
    }
  }

  lemma NextIsLogged(script: Script, s: State, step: Step)
    requires Invariant(script, s) && Next(script, s, step).Some?
    ensures Logged(script, Next(script, s, step).value)
  {
    hide *;
    var t := Next(script, s, step).value;
    InvariantIs(script, s);
    NextKeeps(script, s, step);
    NextMarks(script, s, step);
    if t.log == s.log {
      LoggedStays(script, s, t);
    } else {
      var mark :| t.log == s.log + [mark] && Follows(s, mark) && (mark == IndexCalled ==> t.at == Indexing);
      LoggedOneMore(script, s, t, mark);
    }
  }

  lemma InvariantIs(script: Script, s: State)
    ensures Invariant(script, s) <==> Kept(script, s) && Placed(script, s) && Logged(script, s)
  {
    hide Placed, SkippedSoFar, TasksTell, Degrades, Over;
  }

  lemma LoggedStays(script: Script, s: State, t: State)
    requires Kept(script, t) && Logged(script, s) && t.log == s.log
    requires s.at in {Indexing, Returned, Failed, Stopped} ==> t.at in {Indexing, Returned, Failed, Stopped}
    requires t.at in {Indexing, Returned} ==> s.at in {Indexing, Returned} || t.log == s.log + [IndexCalled]
    ensures Logged(script, t)
  {
    hide SkippedSoFar, TasksTell, Degrades, MarksTell, Waited;
  }

  /** What the new mark waits for is in the log before it, and it is not there itself. */
  lemma MarkIsNew(script: Script, s: State, mark: Mark)
    requires Kept(script, s) && Logged(script, s) && Follows(s, mark)
    ensures mark !in s.log && Waited(s.log + [mark], |s.log|)
  {
    assert (s.log + [mark])[..|s.log|] == s.log;
    hide SkippedSoFar, TasksTell, Degrades;
    assert s.tasks.Of(Classify) == s.tasks.classify;
  }

  lemma LoggedOneMore(script: Script, s: State, t: State, mark: Mark)
    requires Kept(script, s) && Kept(script, t) && Logged(script, s) && t.log == s.log + [mark]
    requires Follows(s, mark) && (mark == IndexCalled ==> t.at == Indexing)
    requires s.at in {Indexing, Returned, Failed, Stopped} ==> t.at in {Indexing, Returned, Failed, Stopped}
    requires t.at in {Indexing, Returned} ==> s.at in {Indexing, Returned} || t.log == s.log + [IndexCalled]
    ensures Logged(script, t)
  {
    MarkIsNew(script, s, mark);
    hide SkippedSoFar, TasksTell, Degrades, MarksTell, Follows;
    forall i: nat | i < |t.log|
      ensures Waited(t.log, i)
    {
      if i < |s.log| {
        assert Waited(s.log, i);
        assert t.log[..i] == s.log[..i] && t.log[i] == s.log[i];
      }
    }
  }

  /** Every state that some interleaving reaches satisfies the invariant. */
  lemma {:induction false} ReachableInvariant(script: Script, steps: seq<Step>)
    requires Run(script, steps).Some?
    ensures Invariant(script, Run(script, steps).value)
  {
    if steps == [] {
      InitialInvariant(script);
    } else {
      var before, last := steps[..|steps| - 1], steps[|steps| - 1];
      ReachableInvariant(script, before);
      var s := Run(script, before).value;
      NextKeeps(script, s, last);
      NextIsPlaced(script, s, last);
      NextIsLogged(script, s, last);
    }
  }

  // ---- Whole runs ----

  /** Fetch, text extraction, indexing and the writes of results all succeed. */
  ghost predicate Succeeds(script: Script) {
    script.fetch && script.parse && script.index && forall stage :: Absorbed(stage, script.answers.Of(stage))
  }

  /** A run that is over and was not cancelled returned iff the spine and every
    * result-saving write succeeded, whatever the interleaving. */
  lemma RunReturnsExactly(script: Script, steps: seq<Step>)
    requires Run(script, steps).Some? && Run(script, steps).value.at in {Returned, Failed}
    ensures Run(script, steps).value.at == Returned <==> Succeeds(script)
  {
    ReachableInvariant(script, steps);
    var s := Run(script, steps).value;
    if s.at == Returned {
      assert forall stage :: s.tasks.Of(stage) == Finished;
    } else if script.fetch && script.parse {
      var t := s.tasks;
      assert t.Of(Classify) == t.classify && t.Of(Extract) == t.extract;
      assert t.Of(Summarize) == t.summarize && t.Of(Risk) == t.risk;
    }
  }

  ghost predicate SomeDegraded(script: Script) {
    exists stage :: script.answers.Of(stage).Responds? && script.answers.Of(stage).degraded
  }

  /** What a returned result says: each skipped stage once, degraded iff some
    * response was, and an index call made after all four stages had ended. */
  lemma ReturnedResultIsExact(script: Script, steps: seq<Step>)
    requires Run(script, steps).Some? && Run(script, steps).value.at == Returned
    ensures var s := Run(script, steps).value;
            && (forall i, j :: 0 <= i < j < |s.skipped| ==> s.skipped[i] != s.skipped[j])
            && (forall stage ::
                  var a := script.answers.Of(stage);
                  stage in s.skipped <==> a.Fails? || (stage == Summarize && !a.usable))
            && (s.degraded <==> SomeDegraded(script))
            && IndexCalled in s.log
            && (forall i, j :: 0 <= i < j < |s.log| ==> s.log[i] != s.log[j])
            && forall i: nat :: i < |s.log| ==> Waited(s.log, i)
  {
    ReachableInvariant(script, steps);
    var s := Run(script, steps).value;
    assert forall stage :: s.tasks.Of(stage) == Finished;
    assert forall stage :: Degrades(script, s, stage) <==>
      script.answers.Of(stage).Responds? && script.answers.Of(stage).degraded;
  }

  /** No two interleavings of one script can disagree. */
  lemma InterleavingsAgree(script: Script, a: seq<Step>, b: seq<Step>)
    requires Run(script, a).Some? && Run(script, a).value.at in {Returned, Failed}
    requires Run(script, b).Some? && Run(script, b).value.at in {Returned, Failed}
    ensures var s, t := Run(script, a).value, Run(script, b).value;
            && s.at == t.at
            && (s.at == Returned ==> s.degraded == t.degraded && multiset(s.skipped) == multiset(t.skipped))
  {
    RunReturnsExactly(script, a);
    RunReturnsExactly(script, b);
    var s, t := Run(script, a).value, Run(script, b).value;
    if s.at == Returned {
      ReturnedResultIsExact(script, a);
      ReturnedResultIsExact(script, b);
      forall stage: Stage
        ensures multiset(s.skipped)[stage] == multiset(t.skipped)[stage]
      {
        OnceEach(s.skipped, stage);
        OnceEach(t.skipped, stage);
      }
    }
  }

  lemma {:induction false} OnceEach(stages: seq<Stage>, stage: Stage)
    requires forall i, j :: 0 <= i < j < |stages| ==> stages[i] != stages[j]
    ensures multiset(stages)[stage] == if stage in stages then 1 else 0
  {
    if stages != [] {
      OnceEach(stages[1..], stage);
      assert stages == [stages[0]] + stages[1..];
    }
  }

  // ---- Progress ----

  function Left(t: Task): nat {
    match t
    case Ready => 2
    case Awaiting => 1
    case _ => 0
  }

  function TaskFuel(t: PerStage<Task>): nat {
    Left(t.classify) + Left(t.extract) + Left(t.summarize) + Left(t.risk)
  }

  function PlaceFuel(at: Place): nat {
    match at
    case Fetching => 5
    case Parsing => 4
    case Classifying => 3
    case Gathering => 2
    case Indexing => 1
    case _ => 0
  }

  /** Steps the run can still take. */
  function Fuel(s: State): nat {
    PlaceFuel(s.at) + TaskFuel(s.tasks)
  }

  lemma AdvanceBurnsFuel(script: Script, s: State, stage: Stage)
    requires Advance(script, s, stage).Some?
    ensures var t := Advance(script, s, stage).value; TaskFuel(t.tasks) < TaskFuel(s.tasks) && t.at == s.at
  {
  }

  lemma NextBurnsFuel(script: Script, s: State, step: Step)
    requires Next(script, s, step).Some?
    ensures Fuel(Next(script, s, step).value) < Fuel(s)
  {
    var t := Next(script, s, step).value;
    match step
    case Main =>
      if s.at == Classifying {
        AdvanceBurnsFuel(script, s, Classify);
        hide Advance;
      } else {
        assert t.tasks == s.tasks && PlaceFuel(t.at) < PlaceFuel(s.at);
      }
    case Gathered(stage) => AdvanceBurnsFuel(script, s, stage);
    case Cancel => assert t.at == Stopped && TaskFuel(t.tasks) == 0;
  }

  lemma {:induction false} EveryScheduleEnds(script: Script, steps: seq<Step>)
    requires Run(script, steps).Some?
    ensures |steps| + Fuel(Run(script, steps).value) <= Fuel(INITIAL) == 13
  {
    if steps != [] {
      var before := steps[..|steps| - 1];
      EveryScheduleEnds(script, before);
      NextBurnsFuel(script, Run(script, before).value, steps[|steps| - 1]);
      hide Next, Fuel;
    }
  }

  /** Which steps a state admits: gathered tasks move in any order once classification has ended. */
  lemma StepsEnabledExactly(script: Script, s: State)
    ensures forall stage ::
      Next(script, s, Gathered(stage)).Some?
      <==> && stage in {Extract, Summarize, Risk} && s.at in {Gathering, Failed} && s.tasks.classify == Finished
           && s.tasks.Of(stage) in {Ready, Awaiting}
    ensures Next(script, s, Cancel).Some? <==> s.at !in {Returned, Failed, Stopped}
    ensures Next(script, s, Main).Some?
      <==> || s.at in {Fetching, Parsing, Indexing}
           || (s.at == Classifying && s.tasks.classify in {Ready, Awaiting})
           || (s.at == Gathering && (Raised in {s.tasks.extract, s.tasks.summarize, s.tasks.risk}
                                     || s.tasks.extract == s.tasks.summarize == s.tasks.risk == Finished))
  {
  }

  /** Until it is over the run can take a step without being cancelled. */
  lemma NeverStuck(script: Script, steps: seq<Step>)
    requires Run(script, steps).Some? && Run(script, steps).value.at !in {Returned, Failed, Stopped}
    ensures exists step :: step != Cancel && Next(script, Run(script, steps).value, step).Some?
  {
    ReachableInvariant(script, steps);
    var s := Run(script, steps).value;
    var t := s.tasks;
    if s.at == Gathering && t.extract in {Ready, Awaiting} {
      assert Next(script, s, Gathered(Extract)).Some?;
    } else if s.at == Gathering && t.summarize in {Ready, Awaiting} {
      assert Next(script, s, Gathered(Summarize)).Some?;
    } else if s.at == Gathering && t.risk in {Ready, Awaiting} {
      assert Next(script, s, Gathered(Risk)).Some?;
    } else {
      assert Next(script, s, Main).Some?;
    }
  }

  // ---- The same run over a shared result ----

  /** `run` and its tasks; `skipped` and `degraded` are the shared `PipelineResult`. */
  class JobRun {
    const script: Script
    var at: Place
    var tasks: PerStage<Task>
    var skipped: seq<Stage>
    var degraded: bool
    ghost var log: seq<Mark>

    constructor (script: Script)
      ensures this.script == script && Now() == INITIAL
    {
      this.script := script;
      at, tasks, skipped, degraded, log := Fetching, INITIAL.tasks, [], false, [];
    }

    ghost function Now(): State
      reads this
    {
      State(at, tasks, skipped, degraded, log)
    }

    /** `_enrichment` up to its `await`. */
    method BeginStage(stage: Stage)
      modifies this
      ensures Now() == Begin(old(Now()), stage)
    {
      tasks := tasks.With(stage, Awaiting);
      log := log + [Began(stage)];
    }

    /** `_enrichment` after its `await`, and the stage method that called it. */
    method FinishStage(stage: Stage)
      modifies this
      ensures Now() == Finish(old(Now()), stage, script.answers.Of(stage))
    {
      var a := script.answers.Of(stage);
      var result := Finished;
      if a.Fails? {
        skipped := skipped + [stage];
      } else {
        if a.degraded {
          degraded := true;
        }
        if stage == Summarize && !a.usable {
          skipped := skipped + [stage];
        } else if !a.saved {
          result := Raised;
        }
      }
      tasks := tasks.With(stage, result);
      log := log + [Ended(stage)];
    }

    method AdvanceStage(stage: Stage) returns (moved: bool)
      modifies this
      ensures match Advance(script, old(Now()), stage)
              case None => !moved && Now() == old(Now())
              case Some(t) => moved && Now() == t
    {
      match tasks.Of(stage) {
        case Ready => BeginStage(stage); moved := true;
        case Awaiting => FinishStage(stage); moved := true;
        case _ => moved := false;
      }
    }

    /** `run` up to its next `await`. */
    method AdvanceRun() returns (moved: bool)
      modifies this
      ensures match Spine(script, old(Now()))
              case None => !moved && Now() == old(Now())
              case Some(t) => moved && Now() == t
    {
      moved := true;
      match at {
        case Fetching => at := if script.fetch then Parsing else Failed;
        case Parsing => at := if script.parse then Classifying else Failed;
        case Classifying =>
          moved := AdvanceStage(Classify);
          if moved && tasks.classify == Finished {
            at := Gathering;
          } else if moved && tasks.classify == Raised {
            at := Failed;
          }
        case Gathering =>
          if tasks.extract == Raised || tasks.summarize == Raised || tasks.risk == Raised {
            at := Failed;
          } else if tasks.extract == tasks.summarize == tasks.risk == Finished {
            at := Indexing;
            log := log + [IndexCalled];
          } else {
            moved := false;
          }
        case Indexing => at := if script.index then Returned else Failed;
        case _ => moved := false;
      }
    }
  }
}

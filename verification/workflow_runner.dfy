/**
 The generic persisted workflow: the row updates of `completeWorkflowStep` and
 `recordWorkflowFailure`, the handler loop over them, and any number of handlers that
 retry the same run at once.
 */
module WorkflowRunner {
  import opened Prelude

  datatype Status = RunPending | RunRunning | RunFailed | RunCompleted

  datatype Run = Run(status: Status, completedSteps: seq<string>, nextStep: Option<string>, version: nat)

  /** `createPersistedWorkflowHandler` refuses any other definition. */
  predicate WellFormed(names: seq<string>) {
    names != [] && forall i, j :: 0 <= i < j < |names| ==> names[i] != names[j]
  }

  function Begun(names: seq<string>): Run
    requires names != []
  {
    Run(RunPending, [], Some(names[0]), 1)
  }

  function Following(names: seq<string>, i: nat): Option<string> {
    if i + 1 < |names| then Some(names[i + 1]) else None
  }

  /** The guarded update of the repository; `None` is the version conflict. */
  function CompleteStep(run: Run, expectedVersion: nat, step: string, nextStep: Option<string>): Option<Run> {
    if run.version != expectedVersion || run.status == RunCompleted then None
    else Some(Run(
                if nextStep.None? then RunCompleted else RunRunning,
                if step in run.completedSteps then run.completedSteps else run.completedSteps + [step],
                nextStep,
                run.version + 1))
  }

  function RecordFailure(run: Run): Run {
    if run.status == RunCompleted then run else run.(status := RunFailed, version := run.version + 1)
  }

  /** `completeWorkflowStep` of the domain package, which tests `nextStep` for truth. */
  function DomainCompleteStep(run: Run, step: string, nextStep: Option<string>): Run {
    if step in run.completedSteps then run
    else if nextStep.Some? && nextStep.value != ""
    then Run(RunRunning, run.completedSteps + [step], nextStep, run.version + 1)
    else Run(RunCompleted, run.completedSteps + [step], None, run.version + 1)
  }

  /** The row update and the domain function agree exactly on fresh steps with a real successor. */
  lemma RowAndDomainAgreeOnFreshSteps(run: Run, step: string, nextStep: Option<string>)
    requires run.status != RunCompleted
    ensures CompleteStep(run, run.version, step, nextStep) == Some(DomainCompleteStep(run, step, nextStep))
            <==> step !in run.completedSteps && nextStep != Some("")
  {
  }

  /** The run stands before step `k` of its definition. */
  predicate Stands(names: seq<string>, run: Run) {
    var k := |run.completedSteps|;
    && k <= |names|
    && run.completedSteps == names[..k]
    && run.nextStep == (if k < |names| then Some(names[k]) else None)
    && (run.status == RunCompleted <==> k == |names|)
  }

  lemma StandsSkips(names: seq<string>, run: Run, i: nat)
    requires WellFormed(names) && Stands(names, run) && i < |names|
    ensures names[i] in run.completedSteps <==> i < |run.completedSteps|
  {
    if i < |run.completedSteps| {
      assert run.completedSteps[i] == names[i];
    }
  }

  lemma CompleteStepAdvances(names: seq<string>, run: Run)
    requires WellFormed(names) && Stands(names, run) && run.status != RunCompleted
    ensures var k := |run.completedSteps|;
      && k < |names|
      && var done := CompleteStep(run, run.version, names[k], Following(names, k));
      && done.Some? && Stands(names, done.value)
      && |done.value.completedSteps| == k + 1 && done.value.version == run.version + 1
  {
    var k := |run.completedSteps|;
    StandsSkips(names, run, k);
    assert names[..k + 1] == names[..k] + [names[k]];
  }

  /** The step is the one the definition has next. */
  predicate IsDue(names: seq<string>, run: Run, step: string, nextStep: Option<string>) {
    && WellFormed(names) && Stands(names, run) && |run.completedSteps| < |names|
    && step == names[|run.completedSteps|] && nextStep == Following(names, |run.completedSteps|)
  }

  // ----- the handler loop over one store -----

  class WorkflowStore {
    var run: Run

    constructor (initial: Run)
      ensures run == initial
    {
      run := initial;
    }

    /** A step is recorded at most once and for good, and completing the due step reaches the next position. */
    method CompleteStepAt(expectedVersion: nat, step: string, nextStep: Option<string>, ghost names: seq<string>)
      returns (row: Option<Run>)
      modifies this
      ensures row.Some? <==> old(run).version == expectedVersion && old(run).status != RunCompleted
      ensures row.None? ==> run == old(run)
      ensures row.Some? ==>
        && row.value == run && run.version == old(run).version + 1
        && run.completedSteps == old(run).completedSteps + (if step in old(run).completedSteps then [] else [step])
      ensures IsDue(names, old(run), step, nextStep) ==>
        Stands(names, run) && (row.Some? ==> |run.completedSteps| == |old(run).completedSteps| + 1)
      ensures row == CompleteStep(old(run), expectedVersion, step, nextStep)
      ensures run == if row.Some? then row.value else old(run)
    {
      if !(run.version == expectedVersion && run.status != RunCompleted) {
        return None;
      }
      if step !in run.completedSteps {
        run := run.(completedSteps := run.completedSteps + [step]);
      }
      run := run.(
        nextStep := nextStep,
        status := if nextStep.None? then RunCompleted else RunRunning,
        version := run.version + 1);
      row := Some(run);
      if IsDue(names, old(run), step, nextStep) {
        CompleteStepAdvances(names, old(run));
      }
    }

    /** A failure never moves the position, and never reopens a completed run. */
    method RecordWorkflowFailure(ghost names: seq<string>)
      modifies this
      ensures run.completedSteps == old(run).completedSteps && run.nextStep == old(run).nextStep
      ensures old(run).status == RunCompleted ==> run == old(run)
      ensures old(run).status != RunCompleted ==> run.status == RunFailed && run.version > old(run).version
      ensures Stands(names, old(run)) ==> Stands(names, run)
      ensures run == RecordFailure(old(run))
    {
      if run.status != RunCompleted {
        run := run.(status := RunFailed, version := run.version + 1);
      }
    }
  }

  /** The first step from `from` on whose execution throws, or the length of the definition. */
  function FirstFailure(works: nat -> bool, from: nat, n: nat): (j: nat)
    requires from <= n
    ensures from <= j <= n
    ensures forall i :: from <= i < j ==> works(i)
    ensures j < n ==> !works(j)
    decreases n - from
  {
    if from == n || !works(from) then from else FirstFailure(works, from + 1, n)
  }

  /** Not recorded, with everything before it recorded: the step is the next of the definition. */
  lemma UnrecordedIsDue(names: seq<string>, run: Run, index: nat)
    requires WellFormed(names) && Stands(names, run) && index <= |run.completedSteps| && index < |names|
    ensures names[index] in run.completedSteps <==> index < |run.completedSteps|
    ensures names[index] !in run.completedSteps ==>
      run.nextStep == Some(names[index]) && IsDue(names, run, names[index], Following(names, index))
  {
    StandsSkips(names, run, index);
  }

  lemma NamesUpTo(names: seq<string>, k: nat, index: nat)
    requires k <= index < |names|
    ensures names[k..index + 1] == names[k..index] + [names[index]]
  {
  }

  /** The due step is executed; what it throws is recorded as a failure, otherwise the step is completed. */
  method ExecuteAndRecord(store: WorkflowStore, names: seq<string>, index: nat, works: nat -> bool)
    returns (thrown: bool)
    requires index < |names| && |store.run.completedSteps| == index && store.run.status != RunCompleted
    requires IsDue(names, store.run, names[index], Following(names, index))
    modifies store
    ensures thrown <==> !works(index)
    ensures Stands(names, store.run) && store.run.version == old(store.run).version + 1
    ensures |store.run.completedSteps| == if thrown then index else index + 1
    ensures thrown ==> store.run.status == RunFailed
  {
    thrown := !works(index);
    if thrown {
      store.RecordWorkflowFailure(names);
      return;
    }
    var row := store.CompleteStepAt(store.run.version, names[index], Following(names, index), names);
  }

  /**
   One undisturbed delivery: it executes exactly the steps that were not recorded, in
   order, up to the first that throws, records each, and completes the run if none throws.
   */
  method Handle(store: WorkflowStore, names: seq<string>, works: nat -> bool)
    returns (executed: seq<string>, thrown: bool)
    requires WellFormed(names) && Stands(names, store.run)
    modifies store
    ensures var k := |old(store.run).completedSteps|;
      var j := FirstFailure(works, k, |names|);
      && Stands(names, store.run)
      && |store.run.completedSteps| == j
      && (thrown <==> j < |names|)
      && executed == (if thrown then names[k..j + 1] else names[k..])
      && store.run.version == old(store.run).version + (j - k) + (if thrown then 1 else 0)
      && (thrown ==> store.run.status == RunFailed)
      && (!thrown ==> store.run.status == RunCompleted)
  {
    ghost var k := |store.run.completedSteps|;
    executed := [];
    thrown := false;
    var workflow := store.run;
    if workflow.status == RunCompleted {
      return;
    }
    var index := 0;
    while index < |names|
      invariant 0 <= index <= |names|
      invariant workflow == store.run && Stands(names, workflow)
      invariant index <= |workflow.completedSteps|
      invariant k <= |workflow.completedSteps|
      invariant index <= k ==> |workflow.completedSteps| == k
      invariant index > k ==> |workflow.completedSteps| == index
      invariant FirstFailure(works, k, |names|) == FirstFailure(works, |workflow.completedSteps|, |names|)
      invariant executed == names[k..|workflow.completedSteps|]
      invariant workflow.version == old(store.run).version + |workflow.completedSteps| - k
    {
      UnrecordedIsDue(names, workflow, index);
      if names[index] !in workflow.completedSteps {
        if workflow.nextStep.Some? && workflow.nextStep.value != names[index] {
          assert false;
        }
        executed := executed + [names[index]];
        NamesUpTo(names, k, index);
        thrown := ExecuteAndRecord(store, names, index, works);
        if thrown {
          return;
        }
        workflow := store.run;
      }
      index := index + 1;
    }
  }

  // ----- many handlers at once -----

  datatype Handler =
    | Idle
    | Looping(run: Run, index: nat)
    | Executed(run: Run, index: nat)
    | Failing

  datatype Event = Event(index: nat, recordedBefore: nat)

  datatype System = System(
    names: seq<string>,
    row: Run,
    handlers: map<nat, Handler>,
    failures: nat,            // history: failures recorded in the row
    recorded: seq<string>,    // history: steps whose completion committed
    events: seq<Event>,       // history: executions, with how many steps were recorded then
    mismatches: nat)          // history: "next step does not match its definition"

  datatype Action = Load(h: nat) | Continue(h: nat) | Execute(h: nat) | Record(h: nat) | Throw(h: nat) | Fail(h: nat) | Crash(h: nat)

  function Initial(names: seq<string>): System
    requires names != []
  {
    System(names, Begun(names), map[], 0, [], [], 0)
  }

  function At(s: System, h: nat): Handler {
    if h in s.handlers then s.handlers[h] else Idle
  }

  function Move(s: System, h: nat, to: Handler): System {
    s.(handlers := s.handlers[h := to])
  }

  predicate Due(s: System, handler: Handler) {
    handler.Looping? && handler.index < |s.names| && s.names[handler.index] !in handler.run.completedSteps
  }

  predicate Matches(s: System, handler: Handler)
    requires Due(s, handler)
  {
    handler.run.nextStep.None? || handler.run.nextStep == Some(s.names[handler.index])
  }

  function Apply(s: System, a: Action): System {
    match a
    case Load(h) =>
      if !At(s, h).Idle? || s.row.status == RunCompleted then s else Move(s, h, Looping(s.row, 0))
    case Continue(h) =>
      var handler := At(s, h);
      if !handler.Looping? then s
      else if handler.index >= |s.names| then Move(s, h, Idle)
      else if !Due(s, handler) then Move(s, h, Looping(handler.run, handler.index + 1))
      else if Matches(s, handler) then s
      else Move(s.(mismatches := s.mismatches + 1), h, Failing)
    case Execute(h) =>
      var handler := At(s, h);
      if !Due(s, handler) || !Matches(s, handler) then s
      else Move(s.(events := s.events + [Event(handler.index, |s.row.completedSteps|)]), h,
                Executed(handler.run, handler.index))
    case Record(h) =>
      var handler := At(s, h);
      if !handler.Executed? || handler.index >= |s.names| then s
      else
        (match CompleteStep(s.row, handler.run.version, s.names[handler.index], Following(s.names, handler.index))
         case None => Move(s, h, Failing)
         case Some(row) =>
           Move(s.(row := row, recorded := s.recorded + [s.names[handler.index]]), h,
                Looping(row, handler.index + 1)))
    case Throw(h) => Move(s, h, Failing)   // from `Idle`, the load itself failed
    case Fail(h) =>
      if !At(s, h).Failing? then s
      else Move(s.(row := RecordFailure(s.row),
                   failures := s.failures + (if s.row.status == RunCompleted then 0 else 1)), h, Idle)
    case Crash(h) => Move(s, h, Idle)
  }

  function Runs(s: System, actions: seq<Action>): System {
    if actions == [] then s
    else Apply(Runs(s, actions[..|actions| - 1]), actions[|actions| - 1])
  }

  predicate WasExecuted(events: seq<Event>, i: nat) {
    exists e :: 0 <= e < |events| && events[e].index == i
  }

  /** A snapshot is the row itself or strictly older, and never ahead of it. */
  predicate SnapshotOk(s: System, run: Run) {
    && Stands(s.names, run)
    && |run.completedSteps| <= |s.row.completedSteps|
    && (run == s.row || run.version < s.row.version)
  }

  predicate HandlerOk(s: System, handler: Handler) {
    match handler
    case Idle => true
    case Failing => true
    case Looping(run, index) => SnapshotOk(s, run) && index <= |run.completedSteps|
    case Executed(run, index) =>
      && SnapshotOk(s, run) && index == |run.completedSteps| < |s.names|
      && WasExecuted(s.events, index)
  }

  predicate EventsOk(s: System) {
    && (forall e :: 0 <= e < |s.events| ==> s.events[e].index <= s.events[e].recordedBefore <= |s.row.completedSteps|)
    && (forall i :: 0 <= i < |s.row.completedSteps| ==> WasExecuted(s.events, i))
  }

  predicate Invariant(s: System) {
    && WellFormed(s.names)
    && Stands(s.names, s.row)
    && s.row.version == 1 + |s.row.completedSteps| + s.failures
    && s.recorded == s.row.completedSteps
    && s.mismatches == 0
    && EventsOk(s)
    && (forall h :: h in s.handlers ==> HandlerOk(s, s.handlers[h]))
  }

  lemma MoveKeepsInvariant(s: System, h: nat, to: Handler)
    requires Invariant(s) && HandlerOk(s, to)
    ensures Invariant(Move(s, h, to))
  {
    var t := Move(s, h, to);
    forall g | g in t.handlers ensures HandlerOk(t, t.handlers[g]) {
      assert g != h ==> HandlerOk(s, s.handlers[g]);
      assert HandlerOk(s, t.handlers[g]);
    }
  }

  lemma ExecuteKeepsInvariant(s: System, h: nat)
    requires Invariant(s) && Due(s, At(s, h)) && Matches(s, At(s, h))
    ensures Invariant(Apply(s, Execute(h)))
  {
    var handler := At(s, h);
    assert HandlerOk(s, handler);
    StandsSkips(s.names, handler.run, handler.index);
    var t := s.(events := s.events + [Event(handler.index, |s.row.completedSteps|)]);
    forall i: nat | WasExecuted(s.events, i) ensures WasExecuted(t.events, i) {
      var e :| 0 <= e < |s.events| && s.events[e].index == i;
      assert t.events[e].index == i;
    }
    forall g | g in t.handlers ensures HandlerOk(t, t.handlers[g]) {
      assert HandlerOk(s, s.handlers[g]);
    }
    assert t.events[|s.events|].index == handler.index;
    MoveKeepsInvariant(t, h, Executed(handler.run, handler.index));
  }

  lemma RecordKeepsInvariant(s: System, h: nat)
    requires Invariant(s) && At(s, h).Executed?
    ensures Invariant(Apply(s, Record(h)))
  {
    var handler := At(s, h);
    assert HandlerOk(s, handler);
    var done := CompleteStep(s.row, handler.run.version, s.names[handler.index], Following(s.names, handler.index));
    if done.None? {
      MoveKeepsInvariant(s, h, Failing);
    } else {
      assert handler.run == s.row;
      CompleteStepAdvances(s.names, s.row);
      StandsSkips(s.names, s.row, handler.index);
      var t := s.(row := done.value, recorded := s.recorded + [s.names[handler.index]]);
      forall g | g in t.handlers ensures HandlerOk(t, t.handlers[g]) {
        assert HandlerOk(s, s.handlers[g]);
      }
      MoveKeepsInvariant(t, h, Looping(done.value, handler.index + 1));
    }
  }

  lemma StepKeepsInvariant(s: System, a: Action)
    requires Invariant(s)
    ensures Invariant(Apply(s, a))
  {
    var handler := At(s, a.h);
    assert HandlerOk(s, handler);
    match a
    case Load(h) => if Apply(s, a) != s { MoveKeepsInvariant(s, h, Looping(s.row, 0)); }
    case Continue(h) =>
      if handler.Looping? && handler.index < |s.names| {
        StandsSkips(s.names, handler.run, handler.index);
      }
      if Apply(s, a) != s {
        MoveKeepsInvariant(s, h, At(Apply(s, a), h));
      }
    case Execute(h) => if Due(s, handler) && Matches(s, handler) { ExecuteKeepsInvariant(s, h); }
    case Record(h) => if handler.Executed? { RecordKeepsInvariant(s, h); }
    case Throw(h) => MoveKeepsInvariant(s, h, Failing);
    case Fail(h) =>
      var t := s.(row := RecordFailure(s.row), failures := s.failures + (if s.row.status == RunCompleted then 0 else 1));
      forall g | g in t.handlers ensures HandlerOk(t, t.handlers[g]) {
        assert HandlerOk(s, s.handlers[g]);
      }
      MoveKeepsInvariant(t, h, Idle);
    case Crash(h) => MoveKeepsInvariant(s, h, Idle);
  }

  lemma {:induction false} RunsKeepInvariant(names: seq<string>, actions: seq<Action>)
    requires WellFormed(names)
    ensures Invariant(Runs(Initial(names), actions)) && Runs(Initial(names), actions).names == names
    decreases |actions|
  {
    if actions != [] {
      RunsKeepInvariant(names, actions[..|actions| - 1]);
      StepKeepsInvariant(Runs(Initial(names), actions[..|actions| - 1]), actions[|actions| - 1]);
    }
  }

  /**
   However many handlers run, retry, fail and vanish: the recorded steps are a prefix of
   the definition, each committed exactly once and after it was executed; a step is only
   ever executed when all before it are recorded; the version counts what happened; and
   the stored position never contradicts the definition.
   */
  lemma {:induction false} StepsAreRecordedInOrderExactlyOnce(names: seq<string>, actions: seq<Action>)
    requires WellFormed(names)
    ensures var s := Runs(Initial(names), actions);
      var k := |s.row.completedSteps|;
      && k <= |names| && s.row.completedSteps == names[..k] && s.recorded == names[..k]
      && s.row.nextStep == (if k < |names| then Some(names[k]) else None)
      && (s.row.status == RunCompleted <==> k == |names|)
      && s.row.version == 1 + k + s.failures
      && s.mismatches == 0
      && (forall e :: 0 <= e < |s.events| ==> s.events[e].index <= s.events[e].recordedBefore)
      && (forall i :: 0 <= i < k ==> WasExecuted(s.events, i))
  {
    RunsKeepInvariant(names, actions);
  }

  // ----- what one handler achieves -----

  /** In every run a step is recorded exactly when the row is still the one its handler goes by; otherwise it conflicts. */
  lemma {:induction false} RecordsExactlyOnItsSnapshot(names: seq<string>, actions: seq<Action>, h: nat)
    requires WellFormed(names) && At(Runs(Initial(names), actions), h).Executed?
    ensures var s := Runs(Initial(names), actions);
      var handler := At(s, h);
      && handler.index < |names|
      && (if handler.run == s.row
          then Apply(s, Record(h)).row.completedSteps == s.row.completedSteps + [names[handler.index]]
          else Apply(s, Record(h)) == Move(s, h, Failing))
  {
    var s := Runs(Initial(names), actions);
    RunsKeepInvariant(names, actions);
    assert HandlerOk(s, s.handlers[h]);
    if s.handlers[h].run == s.row {
      CompleteStepAdvances(names, s.row);
      StandsSkips(names, s.row, s.handlers[h].index);
    }
  }

  /** A failing handler notes it, once, on a run that is not completed, and stops. */
  lemma FailureEndsTheHandler(s: System, h: nat)
    requires At(s, h).Failing?
    ensures var t := Apply(s, Fail(h));
      && At(t, h).Idle?
      && (s.row.status == RunCompleted ==> t.row == s.row && t.failures == s.failures)
      && (s.row.status != RunCompleted ==>
            t.row == s.row.(status := RunFailed, version := s.row.version + 1) && t.failures == s.failures + 1)
  {
  }

  /** A handler that vanishes, or is done, leaves the row alone; one that throws fails next. */
  lemma LeavingTouchesNoRow(s: System, h: nat)
    ensures Apply(s, Crash(h)).row == s.row && At(Apply(s, Crash(h)), h).Idle?
    ensures Apply(s, Throw(h)).row == s.row && At(Apply(s, Throw(h)), h).Failing?
    ensures At(s, h).Idle? && s.row.status == RunCompleted ==> Apply(s, Load(h)) == s
    ensures h !in s.handlers ==> At(s, h).Idle?
  {
  }

  predicate BySteps(steps: seq<Action>, h: nat) {
    forall i :: 0 <= i < |steps| ==>
      steps[i].h == h && (steps[i].Load? || steps[i].Continue? || steps[i].Execute? || steps[i].Record?)
  }

  lemma {:induction false} OneStepRuns(s: System, a: Action)
    ensures Runs(s, [a]) == Apply(s, a)
  {
    assert [a][..0] == [];
    assert Runs(s, [a][..0]) == s;
  }

  lemma {:induction false} RunsAppend(s: System, first: seq<Action>, second: seq<Action>)
    ensures Runs(s, first + second) == Runs(Runs(s, first), second)
    decreases |second|
  {
    if second == [] {
      assert first + second == first;
    } else {
      RunsAppend(s, first, second[..|second| - 1]);
      assert (first + second)[..|first + second| - 1] == first + second[..|second| - 1];
    }
  }

  /** Where a handler stands that goes by the row itself. */
  predicate UpToDate(s: System, h: nat, index: nat) {
    Invariant(s) && At(s, h) == Looping(s.row, index) && index <= |s.names|
  }

  lemma TurnSkipsRecorded(s: System, h: nat, index: nat)
    requires UpToDate(s, h, index) && index < |s.row.completedSteps|
    ensures UpToDate(Apply(s, Continue(h)), h, index + 1) && Apply(s, Continue(h)) == Move(s, h, Looping(s.row, index + 1))
  {
    assert HandlerOk(s, s.handlers[h]);
    StandsSkips(s.names, s.row, index);
    StepKeepsInvariant(s, Continue(h));
  }

  lemma TurnExecutesDue(s: System, h: nat, index: nat)
    requires UpToDate(s, h, index) && index == |s.row.completedSteps| < |s.names|
    ensures var t := Apply(s, Execute(h));
      Invariant(t) && At(t, h) == Executed(s.row, index) && t.row == s.row && t.names == s.names
  {
    assert HandlerOk(s, s.handlers[h]);
    StandsSkips(s.names, s.row, index);
    StepKeepsInvariant(s, Execute(h));
  }

  lemma TurnRecordsExecuted(s: System, h: nat, index: nat)
    requires Invariant(s) && At(s, h) == Executed(s.row, index)
    ensures var t := Apply(s, Record(h));
      UpToDate(t, h, index + 1) && t.names == s.names && |t.row.completedSteps| == index + 1
  {
    assert HandlerOk(s, s.handlers[h]);
    CompleteStepAdvances(s.names, s.row);
    StepKeepsInvariant(s, Record(h));
  }

  lemma NextTurn(s: System, h: nat, index: nat) returns (steps: seq<Action>)
    requires UpToDate(s, h, index) && index < |s.names|
    ensures BySteps(steps, h) && UpToDate(Runs(s, steps), h, index + 1) && Runs(s, steps).names == s.names
    ensures |Runs(s, steps).row.completedSteps| > index
  {
    if index < |s.row.completedSteps| {
      steps := [Continue(h)];
      OneStepRuns(s, Continue(h));
      TurnSkipsRecorded(s, h, index);
    } else {
      assert HandlerOk(s, s.handlers[h]);
      steps := [Execute(h)] + [Record(h)];
      TurnExecutesDue(s, h, index);
      TurnRecordsExecuted(Apply(s, Execute(h)), h, index);
      RunsAppend(s, [Execute(h)], [Record(h)]);
      OneStepRuns(s, Execute(h));
      OneStepRuns(Apply(s, Execute(h)), Record(h));
    }
  }

  lemma {:induction false} TurnsToTheEnd(s: System, h: nat, index: nat) returns (steps: seq<Action>)
    requires UpToDate(s, h, index) && (index == |s.names| ==> |s.row.completedSteps| == index)
    ensures BySteps(steps, h) && UpToDate(Runs(s, steps), h, |s.names|) && Runs(s, steps).names == s.names
    ensures |Runs(s, steps).row.completedSteps| == |s.names|
    decreases |s.names| - index
  {
    if index == |s.names| {
      steps := [];
    } else {
      var turn := NextTurn(s, h, index);
      var t := Runs(s, turn);
      assert Stands(t.names, t.row);
      var more := TurnsToTheEnd(t, h, index + 1);
      steps := turn + more;
      RunsAppend(s, turn, more);
    }
  }

  /**
   Whatever happened before, a handler that starts anew and is left alone completes the run:
   every step is recorded, and the handler is idle again.
   */
  lemma HandlerLeftAloneCompletes(names: seq<string>, before: seq<Action>, h: nat) returns (steps: seq<Action>)
    requires WellFormed(names) && At(Runs(Initial(names), before), h).Idle?
    ensures BySteps(steps, h)
    ensures var s := Runs(Initial(names), before + steps);
      s.row.status == RunCompleted && s.row.completedSteps == names && At(s, h).Idle?
  {
    var s := Runs(Initial(names), before);
    RunsKeepInvariant(names, before);
    if s.row.status == RunCompleted {
      steps := [];
      assert before + steps == before && names[..|names|] == names;
    } else {
      var loaded := Apply(s, Load(h));
      StepKeepsInvariant(s, Load(h));
      var turns := TurnsToTheEnd(loaded, h, 0);
      var done := Runs(loaded, turns);
      steps := [Load(h)] + turns + [Continue(h)];
      RunsAppend(s, [Load(h)] + turns, [Continue(h)]);
      RunsAppend(s, [Load(h)], turns);
      OneStepRuns(s, Load(h));
      OneStepRuns(done, Continue(h));
      RunsAppend(Initial(names), before, steps);
      assert Stands(names, done.row) && names[..|names|] == names;
    }
  }
}

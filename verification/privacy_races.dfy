/**
 What the locks of a privacy deletion do not give: a hold or an approval that is committed
 after the completion has read the holds or updated the approvals, and two transactions
 that wait for each other. For holds, exactly when a removal respects them.
 */
module PrivacyRaces {
  import opened Prelude
  import opened PrivacyDeletion
  import opened PrivacyAccess
  import opened PrivacyLocks

  lemma Then(start: System, run: seq<Action>, a: Action) returns (longer: seq<Action>)
    ensures longer == run + [a] && Execute(start, longer) == Apply(Execute(start, run), a)
  {
    longer := run + [a];
    assert longer[..|longer| - 1] == run;
  }

  const REQUEST := Request(RecoveryPeriod, 2, 0, DAY)
  const EXECUTION := Execution(RecoveryPeriod, 1, DAY, None, [])
  const WORKFLOW := Workflow(RunPending, [VerifyIdentity], Some(ActiveSystem), 2)
  const COMPLETION := Complete(1, DAY)

  /** The rows of a confirmed deletion, with nothing but the given completion running. */
  predicate Completing(s: System, access: Access, x: Txn) {
    s.txns == map[2 := x] && s.tables == Tables(REQUEST, Some(EXECUTION), WORKFLOW, access)
  }

  predicate Unchanged(s: System, t: System) {
    t.holds == s.holds && t.approving == s.approving
  }

  /** A completion that runs alone takes its next statement. */
  lemma StatementRuns(s: System, access: Access, x: Txn)
    requires Completing(s, access, x) && x.kind == COMPLETION && x.pc < 10 && HasRead(x)
    requires CompleteStatement(s.tables, s.holds, x).Some?
    ensures Completing(Apply(s, Statement(2)), access, CompleteStatement(s.tables, s.holds, x).value)
    ensures Unchanged(s, Apply(s, Statement(2)))
  {
    assert LockedMemberships(s, Some(2)) == {};
    assert s.txns[2 := CompleteStatement(s.tables, s.holds, x).value]
        == map[2 := CompleteStatement(s.tables, s.holds, x).value];
  }

  function AtStatement(pc: nat, execution: Option<Execution>, removal: Option<Removal>): Txn {
    Txn(COMPLETION, pc, None, execution, None, removal, [])
  }

  /** A confirmation that has taken its first two steps. */
  lemma ConfirmationStarts(access: Access) returns (run: seq<Action>)
    requires access.person
    ensures var s := Execute(Initial(access), run);
      && s.txns.Keys == {0} && s.txns[0].pc == 2
      && s == Apply(Apply(Apply(Initial(access), Begin(0, Confirm(1, 0, 1))), Statement(0)), Statement(0))
  {
    var start := Initial(access);
    run := Then(start, [], Begin(0, Confirm(1, 0, 1)));
    run := Then(start, run, Statement(0));
    assert Execute(start, run).txns[0].pc == 1;
    run := Then(start, run, Statement(0));
  }

  /** A confirmed deletion with a one-day recovery period that started at 0. */
  lemma ConfirmedRun(access: Access) returns (run: seq<Action>)
    requires access.person
    ensures var s := Execute(Initial(access), run);
      && s.txns == map[] && s.holds == [] && s.approving == map[]
      && s.tables == Tables(REQUEST, Some(EXECUTION), WORKFLOW, access)
  {
    var start := Initial(access);
    run := ConfirmationStarts(access);
    run := Then(start, run, Statement(0));
    assert Execute(start, run).txns[0].pc == 3;
    run := Then(start, run, Statement(0));
    assert Execute(start, run).txns[0].pc == 4 && Execute(start, run).txns.Keys == {0};
    run := Then(start, run, Commit(0));
    assert Execute(start, run).txns == map[];
  }

  /** A completion has locked the execution and read that there is no hold. */
  lemma HoldsRead(access: Access) returns (run: seq<Action>)
    requires access.person
    ensures var s := Execute(Initial(access), run);
      Completing(s, access, AtStatement(2, Some(EXECUTION), None)) && s.holds == [] && s.approving == map[]
  {
    var start := Initial(access);
    run := ConfirmedRun(access);
    run := Then(start, run, Begin(2, COMPLETION));
    assert Completing(Execute(start, run), access, AtStatement(0, None, None));
    StatementRuns(Execute(start, run), access, AtStatement(0, None, None));
    run := Then(start, run, Statement(2));
    StatementRuns(Execute(start, run), access, AtStatement(1, Some(EXECUTION), None));
    run := Then(start, run, Statement(2));
  }

  function Reading(access: Access, grants: Option<set<nat>>, approvals: Option<set<nat>>): Removal {
    Removal(ActiveMemberships(access), grants, approvals, false, false)
  }

  /** From the read of the holds to the update of the approvals. */
  lemma UpdatesRun(access: Access, before: seq<Action>) returns (run: seq<Action>)
    requires Completing(Execute(Initial(access), before), access, AtStatement(2, Some(EXECUTION), None))
    ensures var s := Execute(Initial(access), run);
      && Completing(s, access, AtStatement(5, Some(EXECUTION),
                                Some(Reading(access, Some(access.grants.Keys), Some(access.approvals.Keys)))))
      && Unchanged(Execute(Initial(access), before), s)
  {
    var start := Initial(access);
    StatementRuns(Execute(start, before), access, AtStatement(2, Some(EXECUTION), None));
    run := Then(start, before, Statement(2));
    StatementRuns(Execute(start, run), access, AtStatement(3, Some(EXECUTION), Some(Reading(access, None, None))));
    run := Then(start, run, Statement(2));
    StatementRuns(Execute(start, run), access,
                  AtStatement(4, Some(EXECUTION), Some(Reading(access, Some(access.grants.Keys), None))));
    run := Then(start, run, Statement(2));
  }

  /** From the update of the approvals to the rewritten execution. */
  lemma DeletionRuns(start: System, access: Access, before: seq<Action>, r: Removal) returns (run: seq<Action>)
    requires Completing(Execute(start, before), access, AtStatement(5, Some(EXECUTION), Some(r)))
    ensures var s := Execute(start, run);
      && Completing(s, access, AtStatement(8, Some(ReviewedExecution(EXECUTION, DAY)),
                                           Some(r.(deactivated := true, deleted := true))))
      && Unchanged(Execute(start, before), s)
  {
    StatementRuns(Execute(start, before), access, AtStatement(5, Some(EXECUTION), Some(r)));
    run := Then(start, before, Statement(2));
    StatementRuns(Execute(start, run), access, AtStatement(6, Some(EXECUTION), Some(r.(deactivated := true))));
    run := Then(start, run, Statement(2));
    StatementRuns(Execute(start, run), access,
                  AtStatement(7, Some(EXECUTION), Some(r.(deactivated := true, deleted := true))));
    run := Then(start, run, Statement(2));
  }

  /** From the rewritten execution to the commit. */
  lemma CommitRuns(start: System, access: Access, before: seq<Action>, r: Removal) returns (run: seq<Action>)
    requires Completing(Execute(start, before), access, AtStatement(8, Some(ReviewedExecution(EXECUTION, DAY)), Some(r)))
    ensures var s := Execute(start, run);
      && s.tables.access == AfterRemoval(access, r, DAY)
      && s.tables.execution == Some(ReviewedExecution(EXECUTION, DAY))
      && s.holds == Execute(start, before).holds
  {
    var execution := Some(ReviewedExecution(EXECUTION, DAY));
    var nine := AtStatement(9, execution, Some(r)).(
    request := Some(REQUEST.(status := AwaitingReview, version := 3)));
    StatementRuns(Execute(start, before), access, AtStatement(8, execution, Some(r)));
    run := Then(start, before, Statement(2));
    assert Completing(Execute(start, run), access, nine);
    StatementRuns(Execute(start, run), access, nine);
    run := Then(start, run, Statement(2));
    assert Completing(Execute(start, run), access, nine.(pc := 10, workflow := Some(ReviewedWorkflow(WORKFLOW))));
    run := Then(start, run, Commit(2));
  }

  // ----- holds -----

  /** A hold that is committed after the completion read the holds does not stop it. */
  lemma LateHoldIsNotSeen(access: Access, hold: Hold) returns (run: seq<Action>)
    requires access.person && ActiveAt(hold, DAY)
    ensures var s := Execute(Initial(access), run);
      && !s.tables.access.person && hold in s.holds
      && s.tables.execution.Some? && s.tables.execution.value.completedAt == Some(DAY)
  {
    var start := Initial(access);
    run := HoldsRead(access);
    run := Then(start, run, SetHolds([hold]));
    assert Execute(start, run).holds == [hold];
    run := UpdatesRun(access, run);
    var r := Reading(access, Some(access.grants.Keys), Some(access.approvals.Keys));
    run := DeletionRuns(start, access, run, r);
    run := CommitRuns(start, access, run, r.(deactivated := true, deleted := true));
  }

  /** The holds the last change of them left, if there was one. */
  function LastHolds(actions: seq<Action>): Option<seq<Hold>> {
    if actions == [] then None
    else if actions[|actions| - 1].SetHolds? then Some(actions[|actions| - 1].holds)
    else LastHolds(actions[..|actions| - 1])
  }

  /** The transaction runs throughout: it is not committed, aborted or failed in between. */
  predicate RunsThrough(s: System, more: seq<Action>, i: nat) {
    && (forall k :: 0 <= k < |more| ==> !(more[k].Commit? && more[k].i == i) && !(more[k].Abort? && more[k].i == i))
    && (forall k :: 0 <= k <= |more| ==> i in Execute(s, more[..k]).txns)
  }

  lemma {:induction false} ExecuteAppends(start: System, first: seq<Action>, second: seq<Action>)
    ensures Execute(start, first + second) == Execute(Execute(start, first), second)
    decreases |second|
  {
    if second == [] {
      assert first + second == first;
    } else {
      ExecuteAppends(start, first, second[..|second| - 1]);
      assert (first + second)[..|first + second| - 1] == first + second[..|second| - 1];
    }
  }

  predicate IsPast(s: System, i: nat, kind: Kind, holds: seq<Hold>) {
    i in s.txns ==> s.txns[i].kind == kind && s.txns[i].pc >= 2 && s.txns[i].holdsSeen == holds
  }

  lemma StepKeepsHoldsSeen(s: System, a: Action, i: nat, kind: Kind, holds: seq<Hold>)
    requires i in s.txns && kind.Complete? && IsPast(s, i, kind, holds)
    requires !(a.Commit? && a.i == i) && !(a.Abort? && a.i == i)
    ensures IsPast(Apply(s, a), i, kind, holds)
  {
  }

  /** Once read, the holds a completion goes by never change. */
  lemma {:induction false} HoldsSeenStay(s: System, more: seq<Action>, i: nat)
    requires i in s.txns && s.txns[i].kind.Complete? && s.txns[i].pc >= 2 && RunsThrough(s, more, i)
    ensures IsPast(Execute(s, more), i, s.txns[i].kind, s.txns[i].holdsSeen)
    decreases |more|
  {
    if more != [] {
      var n := |more| - 1;
      assert forall k :: 0 <= k <= n ==> more[..n][..k] == more[..k];
      HoldsSeenStay(s, more[..n], i);
      StepKeepsHoldsSeen(Execute(s, more[..n]), more[n], i, s.txns[i].kind, s.txns[i].holdsSeen);
    }
  }

  lemma {:induction false} HoldsAreTheLast(s: System, more: seq<Action>)
    ensures Execute(s, more).holds == match LastHolds(more) case Some(holds) => holds case None => s.holds
    decreases |more|
  {
    if more != [] {
      HoldsAreTheLast(s, more[..|more| - 1]);
    }
  }

  /**
   Over every run in which a completion reads the holds and goes on to remove the person, with
   anything in between: no hold is active when it is about to commit if and only if nobody
   changed the holds after the read, or the last change left none that is active then.
   */
  lemma {:induction false} RemovalRespectsHoldsExactly(access: Access, before: seq<Action>, more: seq<Action>, i: nat)
    requires access.person
    requires
      var r := Execute(Initial(access), before);
      i in r.txns && r.txns[i].kind.Complete? && r.txns[i].pc == 1
    requires
      var s := Apply(Execute(Initial(access), before), Statement(i));
      RunsThrough(s, more, i) && i in Execute(s, more).txns && Execute(s, more).txns[i].removal.Some?
    ensures
      var at := Execute(Initial(access), before).txns[i].kind.at;
      var t := Execute(Initial(access), before + [Statement(i)] + more);
      (forall h :: h in t.holds ==> !ActiveAt(h, at))
      <==> (LastHolds(more).Some? ==> forall h :: h in LastHolds(more).value ==> !ActiveAt(h, at))
  {
    var start := Initial(access);
    var r := Execute(start, before);
    var s := Apply(r, Statement(i));
    var read := Then(start, before, Statement(i));
    ExecuteAppends(start, read, more);
    RunsKeepInvariant(access, read + more);
    assert s.txns[i].pc == 2 && s.txns[i].holdsSeen == r.holds == s.holds;
    HoldsSeenStay(s, more, i);
    HoldsAreTheLast(s, more);
    var t := Execute(s, more);
    assert TxnOk(t.tables, t.txns[i]);
    assert !Blocked(t.txns[i]);
  }

  // ----- approvals -----

  /** An approval checked in time but inserted after the update is left unrevoked under a removed person. */
  lemma LateApprovalStaysUnrevoked(access: Access, m: nat, g: nat) returns (run: seq<Action>)
    requires access.person && m in ActiveMemberships(access) && access.memberships[m].role == "SupportAgent"
    requires g !in access.approvals
    ensures var s := Execute(Initial(access), run);
      && !s.tables.access.person && ActiveMemberships(s.tables.access) == {}
      && Open(s.tables.access.approvals, {m}, g)
  {
    var start := Initial(access);
    run := HoldsRead(access);
    run := UpdatesRun(access, run);
    var r := Reading(access, Some(access.grants.Keys), Some(access.approvals.Keys));
    run := Then(start, run, Other(CheckApproval(g, m)));
    assert Execute(start, run).approving == map[g := m];
    run := Then(start, run, Other(InsertApproval(g)));
    var later := access.(approvals := access.approvals[g := Grant(m, None, 1)]);
    assert Completing(Execute(start, run), later, AtStatement(5, Some(EXECUTION), Some(r)));
    run := DeletionRuns(start, later, run, r);
    run := CommitRuns(start, later, run, r.(deactivated := true, deleted := true));
    assert g !in access.approvals.Keys;
    assert ActiveMemberships(AfterRemoval(later, r.(deactivated := true, deleted := true), DAY)) == {};
  }

  // ----- waiting for each other -----

  lemma CancelStarts(access: Access, before: seq<Action>, completion: Txn) returns (run: seq<Action>)
    requires Completing(Execute(Initial(access), before), access, completion)
    requires completion.kind == COMPLETION && completion.request.None?
    ensures var s := Execute(Initial(access), run);
      && s.txns.Keys == {1, 2} && s.txns[2] == completion
      && s.txns[1].kind == Cancel(2) && s.txns[1].pc == 1 && s.txns[1].request.Some? && s.txns[1].execution.None?
  {
    var start := Initial(access);
    run := Then(start, before, Begin(1, Cancel(2)));
    assert Execute(start, run).txns == map[1 := Txn(Cancel(2), 0, None, None, None, None, []), 2 := completion];
    assert RequestFree(Execute(start, run), 1);
    run := Then(start, run, Statement(1));
  }

  /** Cancel and completion take the first two rows in opposite orders and can wait for each other. */
  lemma OppositeOrdersCanDeadlock(access: Access) returns (run: seq<Action>)
    requires access.person
    ensures var s := Execute(Initial(access), run);
      && 1 in s.txns && 2 in s.txns && s.txns[1].kind.Cancel? && s.txns[2].kind.Complete?
      && !Ready(s, 1) && !Ready(s, 2)
      && Ready(Apply(s, Abort(1)), 2) && Ready(Apply(s, Abort(2)), 1)
  {
    var start := Initial(access);
    run := HoldsRead(access);
    run := UpdatesRun(access, run);
    var r := Reading(access, Some(access.grants.Keys), Some(access.approvals.Keys));
    run := DeletionRuns(start, access, run, r);
    run := CancelStarts(access, run, AtStatement(8, Some(ReviewedExecution(EXECUTION, DAY)),
                                                 Some(r.(deactivated := true, deleted := true))));
    WaitForEachOther(Execute(start, run));
  }

  lemma WaitForEachOther(s: System)
    requires s.txns.Keys == {1, 2}
    requires s.txns[1].kind.Cancel? && s.txns[1].pc == 1 && s.txns[1].request.Some? && s.txns[1].execution.None?
    requires s.txns[2].kind.Complete? && s.txns[2].pc == 8 && s.txns[2].execution.Some? && s.txns[2].request.None?
    ensures !Ready(s, 1) && !Ready(s, 2) && Ready(Apply(s, Abort(1)), 2) && Ready(Apply(s, Abort(2)), 1)
  {
    assert 1 in s.txns && 2 in s.txns;
    assert Apply(s, Abort(1)).txns.Keys == {2} && Apply(s, Abort(2)).txns.Keys == {1};
  }
}

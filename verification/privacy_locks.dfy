/**
 The three privacy transactions interleaved statement by statement, while other transactions
 change roles, join, grant, approve and revoke. A statement that touches a row waits until no
 other transaction holds it, then sees the latest committed row (read committed); written
 rows stay private until commit. `Abort` may end any transaction at any point, which is how
 deadlocks are resolved.
 */
module PrivacyLocks {
  import opened Prelude
  import opened PrivacyDeletion
  import opened PrivacyAccess

  /** `Some` means that the row is locked by the transaction and gives the value it now sees. */
  datatype Txn = Txn(
    kind: Kind,
    pc: nat,
    request: Option<Request>,
    execution: Option<Execution>,
    workflow: Option<Workflow>,
    removal: Option<Removal>,
    holdsSeen: seq<Hold>)

  datatype System = System(
    tables: Tables,
    holds: seq<Hold>,
    txns: map<nat, Txn>,
    approving: map<nat, nat>,   // approvals checked and not yet inserted, with their memberships
    start: Access,              // history: the access rows before anything ran
    removal: Option<Txn>,       // history: the transaction that removed the person
    late: set<nat>)             // history: the approvals that removal could not see

  datatype Action =
    | Begin(i: nat, kind: Kind)
    | Statement(i: nat)
    | Commit(i: nat)
    | Abort(i: nat)
    | SetHolds(holds: seq<Hold>)
    | Other(change: Change)

  function Initial(access: Access): System {
    System(Tables(Request(IdentityVerification, 1, 0, 0), None,
                  Workflow(RunPending, [], Some(VerifyIdentity), 1), access),
           [], map[], map[], access, None, {})
  }

  predicate RequestFree(s: System, i: nat) {
    forall j :: j in s.txns && j != i ==> s.txns[j].request.None?
  }

  predicate ExecutionFree(s: System, i: nat) {
    forall j :: j in s.txns && j != i ==> s.txns[j].execution.None?
  }

  predicate WorkflowFree(s: System, i: nat) {
    forall j :: j in s.txns && j != i ==> s.txns[j].workflow.None?
  }

  /** The membership rows read `for update` by transactions, other than `i` if one is given. */
  function LockedMemberships(s: System, i: Option<nat>): set<nat> {
    set j, m | j in s.txns && Some(j) != i && s.txns[j].removal.Some? && m in s.txns[j].removal.value.memberships :: m
  }

  /** The approvals updated and not yet committed. */
  function LockedApprovals(s: System): set<nat> {
    set j, g | j in s.txns && s.txns[j].removal.Some?
               && g in Hits(s.tables.access.approvals, s.txns[j].removal.value.memberships,
                            Seen(s.txns[j].removal.value.approvalsSeen)) :: g
  }

  /** The statement may run now: the row it touches is not locked by another transaction. */
  predicate Ready(s: System, i: nat)
    requires i in s.txns
  {
    var x := s.txns[i];
    match x.kind
    case Confirm(_, _, _) =>
      if x.pc <= 1 then RequestFree(s, i) else if x.pc == 2 then WorkflowFree(s, i)
      else x.pc == 3 && ExecutionFree(s, i)
    case Cancel(_) =>
      if x.pc == 0 then RequestFree(s, i) else if x.pc == 1 then ExecutionFree(s, i)
      else x.pc == 2 && WorkflowFree(s, i)
    case Complete(_, _) =>
      if x.pc == 0 then ExecutionFree(s, i)
      else if x.pc == 2 then Blocked(x) || ActiveMemberships(s.tables.access) !! LockedMemberships(s, Some(i))
      else if x.pc <= 7 then true
      else if x.pc == 8 then RequestFree(s, i)
      else x.pc == 9 && WorkflowFree(s, i)
  }

  function FinalPc(kind: Kind): nat {
    match kind
    case Confirm(_, _, _) => 4
    case Cancel(_) => 3
    case Complete(_, _) => 10
  }

  /** The next statement of a confirmation; `None` is a thrown error, which rolls back. */
  function ConfirmStatement(t: Tables, x: Txn): Option<Txn>
    requires x.kind.Confirm?
  {
    match x.pc
    case 0 =>
      if t.request.status != IdentityVerification then None
      else Some(x.(pc := 1, request := Some(t.request)))
    case 1 =>
      if t.request.version != x.kind.expectedVersion || x.kind.recoveryDays <= 0 then None
      else Some(x.(pc := 2, request := Some(ConfirmedRequest(t.request, x.kind))))
    case 2 =>
      if t.workflow.nextStep != Some(VerifyIdentity) then None
      else Some(x.(pc := 3, workflow := Some(ConfirmedWorkflow(t.workflow))))
    case _ =>
      if t.execution.Some? then None
      else Some(x.(pc := 4, execution := Some(NewExecution(x.kind))))
  }

  function CancelStatement(t: Tables, x: Txn): Option<Txn>
    requires x.kind.Cancel?
  {
    match x.pc
    case 0 =>
      if t.request.status != RecoveryPeriod || t.request.version != x.kind.expectedVersion then None
      else Some(x.(pc := 1, request := Some(t.request.(status := CancelledRequest, version := t.request.version + 1))))
    case 1 =>
      if t.execution.None? || t.execution.value.status != RecoveryPeriod then None
      else Some(x.(pc := 2, execution := Some(t.execution.value.(
                                              status := CancelledRequest, version := t.execution.value.version + 1))))
    case _ =>
      if t.workflow.status == RunCompleted then None
      else Some(x.(pc := 3, workflow := Some(CancelledWorkflow(t.workflow))))
  }

  predicate Blocked(x: Txn)
    requires x.kind.Complete?
  {
    ActiveCategories(x.holdsSeen, x.kind.at) != []
  }

  /**
   Lock the execution; read the holds; then either skip to the blocked updates, or read the
   memberships `for update`, update grants, approvals and memberships and delete the person;
   then the execution, the request and the workflow. The last two updates have no guard.
   With no active membership the three updates of the access rows are skipped, and change
   nothing here.
   */
  function CompleteStatement(t: Tables, holds: seq<Hold>, x: Txn): Option<Txn>
    requires x.kind.Complete? && (3 <= x.pc <= 6 ==> x.removal.Some?)
  {
    match x.pc
    case 0 =>
      if !MayComplete(t, x.kind) then None else Some(x.(pc := 1, execution := t.execution))
    case 1 => Some(x.(pc := 2, holdsSeen := holds))
    case 2 =>
      if Blocked(x) then Some(x.(pc := 7))
      else Some(x.(pc := 3, removal := Some(Removal(ActiveMemberships(t.access), None, None, false, false))))
    case 3 => Some(x.(pc := 4, removal := Some(x.removal.value.(grantsSeen := Some(t.access.grants.Keys)))))
    case 4 => Some(x.(pc := 5, removal := Some(x.removal.value.(approvalsSeen := Some(t.access.approvals.Keys)))))
    case 5 => Some(x.(pc := 6, removal := Some(x.removal.value.(deactivated := true))))
    case 6 => Some(x.(pc := 7, removal := Some(x.removal.value.(deleted := true))))
    case 7 =>
      if t.execution.None? then None
      else Some(x.(pc := 8, execution := Some(
                              if Blocked(x)
                              then BlockedExecution(t.execution.value, ActiveCategories(x.holdsSeen, x.kind.at))
                              else ReviewedExecution(t.execution.value, x.kind.at))))
    case 8 =>
      Some(x.(pc := 9, request := Some(t.request.(
                                       status := if Blocked(x) then BlockedLegalHold else AwaitingReview,
                                       version := t.request.version + 1))))
    case _ =>
      Some(x.(pc := 10, workflow := Some(
                          if Blocked(x) then BlockedWorkflow(t.workflow) else ReviewedWorkflow(t.workflow))))
  }

  predicate HasRead(x: Txn) {
    x.kind.Complete? && 3 <= x.pc <= 6 ==> x.removal.Some?
  }

  function NextStatement(s: System, i: nat): Option<Txn>
    requires i in s.txns && HasRead(s.txns[i])
  {
    var x := s.txns[i];
    match x.kind
    case Confirm(_, _, _) => ConfirmStatement(s.tables, x)
    case Cancel(_) => CancelStatement(s.tables, x)
    case Complete(_, _) => CompleteStatement(s.tables, s.holds, x)
  }

  function Overlay(t: Tables, x: Txn): Tables {
    Tables(if x.request.Some? then x.request.value else t.request,
           if x.execution.Some? then x.execution else t.execution,
           if x.workflow.Some? then x.workflow.value else t.workflow,
           if x.removal.Some? && x.kind.Complete? then AfterRemoval(t.access, x.removal.value, x.kind.at) else t.access)
  }

  function OfficeOf(s: System): Office {
    Office(s.tables.access, s.approving)
  }

  function WithOffice(s: System, o: Office): System {
    s.(tables := s.tables.(access := o.access), approving := o.approving)
  }

  function Apply(s: System, a: Action): System {
    match a
    case Begin(i, kind) =>
      if i in s.txns then s else s.(txns := s.txns[i := Txn(kind, 0, None, None, None, None, [])])
    case Statement(i) =>
      if i !in s.txns || s.txns[i].pc >= FinalPc(s.txns[i].kind) || !Ready(s, i) || !HasRead(s.txns[i]) then s
      else (match NextStatement(s, i)
            case None => s.(txns := s.txns - {i})
            case Some(x) => s.(txns := s.txns[i := x]))
    case Commit(i) =>
      if i !in s.txns || s.txns[i].pc != FinalPc(s.txns[i].kind) then s
      else s.(tables := Overlay(s.tables, s.txns[i]),
              txns := s.txns - {i},
              removal := if s.txns[i].removal.Some? then Some(s.txns[i]) else s.removal,
              late := if s.txns[i].removal.Some? then Late(OfficeOf(s), s.txns[i].removal.value) else s.late)
    case Abort(i) => s.(txns := s.txns - {i})
    case SetHolds(holds) => s.(holds := holds)
    case Other(change) => WithOffice(s, Changed(OfficeOf(s), change, LockedMemberships(s, None), LockedApprovals(s)))
  }

  function Execute(s: System, actions: seq<Action>): System {
    if actions == [] then s
    else Apply(Execute(s, actions[..|actions| - 1]), actions[|actions| - 1])
  }

  // ----- what a running transaction knows -----

  predicate ConfirmOk(t: Tables, x: Txn)
    requires x.kind.Confirm?
  {
    && x.pc <= 4 && x.removal.None?
    && x.request == (if x.pc == 0 then None else if x.pc == 1 then Some(t.request)
                     else Some(ConfirmedRequest(t.request, x.kind)))
    && x.workflow == (if x.pc <= 2 then None else Some(ConfirmedWorkflow(t.workflow)))
    && x.execution == (if x.pc <= 3 then None else Some(NewExecution(x.kind)))
    && (x.pc >= 1 ==> t.request.status == IdentityVerification)
    && (x.pc >= 2 ==> t.request.version == x.kind.expectedVersion && x.kind.recoveryDays > 0)
  }

  predicate CancelOk(t: Tables, x: Txn)
    requires x.kind.Cancel?
  {
    && x.pc <= 3 && x.removal.None?
    && (x.pc >= 1 ==> t.request.status == RecoveryPeriod && t.request.version == x.kind.expectedVersion)
    && x.request == (if x.pc == 0 then None
                     else Some(t.request.(status := CancelledRequest, version := t.request.version + 1)))
    && (if x.pc <= 1 then x.execution.None?
        else t.execution.Some? && x.execution == Some(t.execution.value.(
                                                      status := CancelledRequest, version := t.execution.value.version + 1)))
    && x.workflow == (if x.pc <= 2 then None else Some(CancelledWorkflow(t.workflow)))
  }

  predicate RowsOk(t: Tables, x: Txn)
    requires x.kind.Complete?
  {
    && x.pc <= 10 && (3 <= x.pc <= 6 ==> !Blocked(x))
    && (x.pc >= 1 ==> MayComplete(t, x.kind))
    && x.execution == (if x.pc == 0 then None else if x.pc <= 7 then t.execution
                       else Some(if Blocked(x)
                                 then BlockedExecution(t.execution.value, ActiveCategories(x.holdsSeen, x.kind.at))
                                 else ReviewedExecution(t.execution.value, x.kind.at)))
    && x.request == (if x.pc <= 8 then None
                     else Some(t.request.(
                               status := if Blocked(x) then BlockedLegalHold else AwaitingReview,
                               version := t.request.version + 1)))
    && x.workflow == (if x.pc <= 9 then None
                      else Some(if Blocked(x) then BlockedWorkflow(t.workflow) else ReviewedWorkflow(t.workflow)))
  }

  /** How far the removal has come, and that what it has read still stands. */
  predicate RemovalFits(a: Access, x: Txn)
    requires x.kind.Complete?
  {
    if x.pc <= 2 || Blocked(x) then x.removal.None?
    else
      && x.removal.Some? && Fits(a, x.removal.value)
      && (x.removal.value.grantsSeen.Some? <==> x.pc >= 4)
      && (x.removal.value.approvalsSeen.Some? <==> x.pc >= 5)
      && (x.removal.value.deactivated <==> x.pc >= 6)
      && (x.removal.value.deleted <==> x.pc >= 7)
  }

  predicate TxnOk(t: Tables, x: Txn) {
    match x.kind
    case Confirm(_, _, _) => ConfirmOk(t, x)
    case Cancel(_) => CancelOk(t, x)
    case Complete(_, _) => RowsOk(t, x) && RemovalFits(t.access, x)
  }

  predicate Compatible(x: Txn, y: Txn) {
    && (x.request.None? || y.request.None?) && (x.execution.None? || y.execution.None?)
    && (x.workflow.None? || y.workflow.None?)
  }

  predicate Exclusive(s: System) {
    forall i, j :: i in s.txns && j in s.txns && i != j ==> Compatible(s.txns[i], s.txns[j])
  }

  /** The person is there until the one removal, and what that removal saw is ended for good after it. */
  ghost predicate RemovalOk(s: System) {
    match s.removal
    case None =>
      && s.tables.access.person && s.tables.request.status != AwaitingReview
      && ActiveMemberships(s.tables.access) == ActiveMemberships(s.start)
    case Some(x) =>
      && x.kind.Complete? && !Blocked(x) && x.removal.Some? && IsDone(x.removal.value)
      && x.removal.value.memberships == ActiveMemberships(s.start)
      && Ended(OfficeOf(s), x.removal.value, s.late)
      && s.tables.request.status == AwaitingReview
      && s.tables.execution.Some? && s.tables.execution.value.completedAt == Some(x.kind.at)
  }

  ghost predicate Invariant(s: System) {
    && Lockstep(s.tables)
    && Exclusive(s)
    && (forall i :: i in s.txns ==> TxnOk(s.tables, s.txns[i]))
    && RemovalOk(s)
  }

  /** The three rows a transaction at its end commits are those the function computes. */
  lemma RowsAreSerial(t: Tables, x: Txn)
    requires Lockstep(t) && TxnOk(t, x) && x.pc == FinalPc(x.kind)
    ensures var serial := Serial(t, x.kind, x.holdsSeen);
      && serial.Some?
      && Overlay(t, x).(access := t.access) == serial.value.(access := t.access)
      && (x.removal.Some? ==> serial.value.access == RemovePerson(t.access, x.kind.at))
      && (x.removal.None? ==> serial.value.access == t.access == Overlay(t, x).access)
  {
  }

  /** A transaction commits exactly what it would have alone, unless a grant or an approval came late. */
  lemma CommitIsSerialExactly(t: Tables, x: Txn)
    requires Lockstep(t) && TxnOk(t, x) && x.pc == FinalPc(x.kind)
    ensures Serial(t, x.kind, x.holdsSeen) == Some(Overlay(t, x))
       <==> (x.removal.Some? ==> NothingLate(t.access, x.removal.value))
  {
    RowsAreSerial(t, x);
    if x.removal.Some? {
      RemovalIsAtomicExactly(t.access, x.removal.value, x.kind.at);
    }
  }

  lemma StatementKeepsTxn(s: System, i: nat)
    requires Invariant(s) && i in s.txns && s.txns[i].pc < FinalPc(s.txns[i].kind) && HasRead(s.txns[i])
    requires NextStatement(s, i).Some?
    ensures TxnOk(s.tables, NextStatement(s, i).value)
  {
    assert TxnOk(s.tables, s.txns[i]);
  }

  lemma StatementTakesFreeLocks(s: System, i: nat, j: nat)
    requires Invariant(s) && i in s.txns && s.txns[i].pc < FinalPc(s.txns[i].kind) && Ready(s, i)
    requires HasRead(s.txns[i]) && NextStatement(s, i).Some? && j in s.txns && i != j
    ensures Compatible(NextStatement(s, i).value, s.txns[j])
  {
    assert Compatible(s.txns[i], s.txns[j]);
    assert TxnOk(s.tables, s.txns[i]);
  }

  lemma StatementKeepsInvariant(s: System, i: nat)
    requires Invariant(s) && i in s.txns && s.txns[i].pc < FinalPc(s.txns[i].kind) && Ready(s, i)
    requires HasRead(s.txns[i])
    ensures Invariant(Apply(s, Statement(i)))
  {
    if NextStatement(s, i).Some? {
      StatementKeepsTxn(s, i);
      forall j | j in s.txns && j != i ensures Compatible(NextStatement(s, i).value, s.txns[j]) {
        StatementTakesFreeLocks(s, i, j);
      }
    }
  }

  /** Only one completion can be past its first statement, and none once the person is gone. */
  lemma OthersHaveNotStarted(s: System, i: nat, j: nat)
    requires Invariant(s) && i in s.txns && s.txns[i].pc == FinalPc(s.txns[i].kind) && j in s.txns && i != j
    ensures s.txns[j].pc == 0 && s.txns[j].removal.None?
    ensures s.txns[j].request.None? && s.txns[j].execution.None? && s.txns[j].workflow.None?
  {
    assert TxnOk(s.tables, s.txns[i]) && TxnOk(s.tables, s.txns[j]) && Compatible(s.txns[i], s.txns[j]);
  }

  lemma CommitKeepsLockstep(s: System, i: nat)
    requires Invariant(s) && i in s.txns && s.txns[i].pc == FinalPc(s.txns[i].kind)
    ensures Lockstep(Apply(s, Commit(i)).tables)
  {
    var x := s.txns[i];
    assert TxnOk(s.tables, x);
    RowsAreSerial(s.tables, x);
    SerialKeepsLockstep(s.tables, x.kind, x.holdsSeen);
  }

  lemma CommitKeepsRemoval(s: System, i: nat)
    requires Invariant(s) && i in s.txns && s.txns[i].pc == FinalPc(s.txns[i].kind)
    ensures RemovalOk(Apply(s, Commit(i)))
  {
    var x := s.txns[i];
    assert TxnOk(s.tables, x);
    if x.removal.Some? {
      RemovalEnds(OfficeOf(s), x.removal.value, x.kind.at);
    }
  }

  /**
   Whoever commits holds all three rows, so no other transaction has locked any of them;
   what the others know is about rows they have locked, and so survives.
   */
  lemma CommitKeepsInvariant(s: System, i: nat)
    requires Invariant(s) && i in s.txns && s.txns[i].pc == FinalPc(s.txns[i].kind)
    ensures Invariant(Apply(s, Commit(i)))
  {
    var t := Apply(s, Commit(i));
    CommitKeepsLockstep(s, i);
    CommitKeepsRemoval(s, i);
    forall j | j in t.txns ensures TxnOk(t.tables, t.txns[j]) {
      OthersHaveNotStarted(s, i, j);
      assert TxnOk(s.tables, s.txns[j]);
    }
  }

  lemma OtherKeepsTxn(s: System, c: Change, i: nat)
    requires i in s.txns && TxnOk(s.tables, s.txns[i])
    ensures TxnOk(Apply(s, Other(c)).tables, s.txns[i])
  {
    var x := s.txns[i];
    if x.kind.Complete? && x.removal.Some? {
      ChangesKeepFits(OfficeOf(s), c, LockedMemberships(s, None), LockedApprovals(s), x.removal.value);
    }
  }

  lemma OtherKeepsRemoval(s: System, c: Change)
    requires RemovalOk(s)
    ensures RemovalOk(Apply(s, Other(c)))
  {
    ChangesLeaveThePerson(OfficeOf(s), c, LockedMemberships(s, None), LockedApprovals(s));
    if s.removal.Some? {
      EndedStays(OfficeOf(s), c, LockedMemberships(s, None), LockedApprovals(s), s.removal.value.removal.value, s.late);
    }
  }

  lemma OtherKeepsInvariant(s: System, c: Change)
    requires Invariant(s)
    ensures Invariant(Apply(s, Other(c)))
  {
    var t := Apply(s, Other(c));
    OtherKeepsRemoval(s, c);
    ChangesLeaveThePerson(OfficeOf(s), c, LockedMemberships(s, None), LockedApprovals(s));
    forall i | i in t.txns ensures TxnOk(t.tables, t.txns[i]) {
      OtherKeepsTxn(s, c, i);
    }
  }

  lemma StepKeepsInvariant(s: System, a: Action)
    requires Invariant(s)
    ensures Invariant(Apply(s, a)) && Apply(s, a).start == s.start
  {
    match a
    case Statement(i) =>
      if i in s.txns && s.txns[i].pc < FinalPc(s.txns[i].kind) && Ready(s, i) {
        assert TxnOk(s.tables, s.txns[i]);
        StatementKeepsInvariant(s, i);
      }
    case Commit(i) =>
      if i in s.txns && s.txns[i].pc == FinalPc(s.txns[i].kind) { CommitKeepsInvariant(s, i); }
    case Other(c) => OtherKeepsInvariant(s, c);
    case Begin(_, _) =>
    case Abort(_) =>
    case SetHolds(_) =>
  }

  lemma {:induction false} RunsKeepInvariant(access: Access, actions: seq<Action>)
    requires access.person
    ensures var s := Execute(Initial(access), actions); Invariant(s) && s.start == access
    decreases |actions|
  {
    if actions != [] {
      RunsKeepInvariant(access, actions[..|actions| - 1]);
      StepKeepsInvariant(Execute(Initial(access), actions[..|actions| - 1]), actions[|actions| - 1]);
    }
  }

  // ----- the theorems -----

  /** A transaction that gets to its commit does so at the version it expected; a stale one never does. */
  lemma {:induction false} CommitsAtTheExpectedVersion(access: Access, actions: seq<Action>, i: nat)
    requires access.person
    requires var s := Execute(Initial(access), actions); i in s.txns && s.txns[i].pc == FinalPc(s.txns[i].kind)
    ensures var s := Execute(Initial(access), actions);
      match s.txns[i].kind
      case Confirm(expected, _, days) =>
        s.tables.request.version == expected && s.tables.request.status == IdentityVerification && days >= 1
      case Cancel(expected) => s.tables.request.version == expected && s.tables.request.status == RecoveryPeriod
      case Complete(expected, at) =>
        && s.tables.execution.Some? && s.tables.execution.value.version == expected
        && s.tables.request.status == RecoveryPeriod && at >= s.tables.request.recoveryUntil
  {
    RunsKeepInvariant(access, actions);
    assert TxnOk(Execute(Initial(access), actions).tables, Execute(Initial(access), actions).txns[i]);
  }

  /** Request, execution and workflow are in lockstep in every committed state of every interleaving. */
  lemma {:induction false} RowsMoveInLockstep(access: Access, actions: seq<Action>)
    requires access.person
    ensures Lockstep(Execute(Initial(access), actions).tables)
  {
    RunsKeepInvariant(access, actions);
  }

  /**
   The person is there, with the same active memberships, until a completion that ran at or
   after the end of the recovery period and saw no active hold, and never goes by a cancelled,
   blocked or unconfirmed deletion. After it, for good: no membership of the person is
   active, the grants and approvals its updates could see are revoked, and the approvals that
   are not were checked before it committed.
   */
  lemma {:induction false} PersonIsRemovedOnlyWhenDue(access: Access, actions: seq<Action>)
    requires access.person
    ensures var s := Execute(Initial(access), actions);
      && (s.tables.access.person <==> s.removal.None?)
      && (s.tables.request.status == AwaitingReview <==> s.removal.Some?)
      && (s.removal.None? ==> ActiveMemberships(s.tables.access) == ActiveMemberships(access))
      && (s.removal.Some? ==>
            var x := s.removal.value;
            && x.kind.Complete? && x.kind.at >= s.tables.request.recoveryUntil
            && (forall h :: h in x.holdsSeen ==> !ActiveAt(h, x.kind.at))
            && x.removal.Some? && x.removal.value.memberships == ActiveMemberships(access)
            && ActiveMemberships(s.tables.access) == {}
            && Ended(OfficeOf(s), x.removal.value, s.late))
  {
    RunsKeepInvariant(access, actions);
  }

  /** No step but the commit of a removal, or the revocation of that one approval, takes any access away. */
  lemma OnlyRemovalEndsAccess(s: System, a: Action, memberships: set<nat>, g: nat)
    requires !(a.Commit? && a.i in s.txns && s.txns[a.i].removal.Some?)
    ensures var before, after := s.tables.access, Apply(s, a).tables.access;
      && after.person == before.person && ActiveMemberships(after) == ActiveMemberships(before)
      && (Open(before.grants, memberships, g) ==> Open(after.grants, memberships, g))
      && (Open(before.approvals, memberships, g) ==>
            Open(after.approvals, memberships, g) || (a.Other? && a.change.RevokeApproval? && a.change.g == g))
  {
    if a.Other? {
      ChangesLeaveThePerson(OfficeOf(s), a.change, LockedMemberships(s, None), LockedApprovals(s));
      if Open(s.tables.access.approvals, memberships, g) {
        OnlyRevokingRevokes(OfficeOf(s), a.change, LockedMemberships(s, None), LockedApprovals(s), memberships, g);
      }
    }
  }

  /**
   The commit of a removal: what was active at the `for update` read ends inactive; a grant
   or an approval of those memberships is left unrevoked exactly when it was good before and
   not yet committed when its update ran.
   */
  lemma {:induction false} CommitEndsExactlyWhatItSaw(access: Access, actions: seq<Action>, i: nat, g: nat)
    requires access.person
    requires
      var s := Execute(Initial(access), actions);
      i in s.txns && s.txns[i].pc == FinalPc(s.txns[i].kind) && s.txns[i].removal.Some?
    ensures
      var s := Execute(Initial(access), actions);
      var r := s.txns[i].removal.value;
      var before, after := s.tables.access, Apply(s, Commit(i)).tables.access;
      && r.memberships == ActiveMemberships(before) == ActiveMemberships(access)
      && !after.person && ActiveMemberships(after) == {}
      && (forall m :: m in before.memberships && m !in r.memberships ==> after.memberships[m] == before.memberships[m])
      && (Open(after.grants, r.memberships, g) <==> Open(before.grants, r.memberships, g) && g !in Seen(r.grantsSeen))
      && (Open(after.approvals, r.memberships, g) <==>
            Open(before.approvals, r.memberships, g) && g !in Seen(r.approvalsSeen))
  {
    RunsKeepInvariant(access, actions);
    var s := Execute(Initial(access), actions);
    assert TxnOk(s.tables, s.txns[i]);
    assert s.removal.None?;
    RemovalEndsExactlyWhatItSaw(s.tables.access, s.txns[i].removal.value, s.txns[i].kind.at);
  }

  predicate RecoveryOk(t: Tables, days: int) {
    t.execution.Some? ==> t.request.recoveryUntil == t.request.verifiedAt + days * DAY
  }

  predicate AsksFor(x: Txn, days: int) {
    x.kind.Confirm? ==> x.kind.recoveryDays == days
  }

  lemma StepKeepsRecovery(s: System, a: Action, days: int)
    requires Invariant(s) && RecoveryOk(s.tables, days) && forall i :: i in s.txns ==> AsksFor(s.txns[i], days)
    requires a.Begin? && a.kind.Confirm? ==> a.kind.recoveryDays == days
    ensures RecoveryOk(Apply(s, a).tables, days) && forall i :: i in Apply(s, a).txns ==> AsksFor(Apply(s, a).txns[i], days)
  {
    if (a.Statement? || a.Commit?) && a.i in s.txns {
      assert TxnOk(s.tables, s.txns[a.i]) && AsksFor(s.txns[a.i], days);
    }
  }

  /** If every confirmation asks for the same number of days, the recovery period is exactly that long. */
  lemma {:induction false} RecoveryPeriodIsKept(access: Access, actions: seq<Action>, days: int)
    requires access.person
    requires forall i :: 0 <= i < |actions| && actions[i].Begin? && actions[i].kind.Confirm? ==>
               actions[i].kind.recoveryDays == days
    ensures var s := Execute(Initial(access), actions);
      RecoveryOk(s.tables, days) && forall i :: i in s.txns ==> AsksFor(s.txns[i], days)
    decreases |actions|
  {
    if actions != [] {
      var n := |actions| - 1;
      RecoveryPeriodIsKept(access, actions[..n], days);
      RunsKeepInvariant(access, actions[..n]);
      StepKeepsRecovery(Execute(Initial(access), actions[..n]), actions[n], days);
    }
  }
}

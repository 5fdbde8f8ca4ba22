/**
 The privacy-deletion rows: request, execution and workflow, and the rows of the person.
 The three transactions are given three times: as functions of committed rows, as the
 statements of the repository, and as interleaved statements that take row locks and can
 be aborted at any point. The interleaved form is shown to commit exactly what the
 function computes, and the rows to move in lockstep.
 */
module PrivacyDeletion {
  import opened Prelude

  const DAY := 86_400_000

  datatype Status = IdentityVerification | RecoveryPeriod | CancelledRequest | BlockedLegalHold | AwaitingReview

  datatype RunStatus = RunPending | RunRunning | RunCompleted

  datatype Step = VerifyIdentity | ActiveSystem | SharedDataReview | LegalHoldReview | CancelStep

  datatype Request = Request(status: Status, version: nat, verifiedAt: int, recoveryUntil: int)

  datatype Execution = Execution(status: Status, version: nat, recoveryUntil: int, completedAt: Option<int>,
                                 retained: seq<string>)

  datatype Workflow = Workflow(status: RunStatus, completedSteps: seq<Step>, nextStep: Option<Step>, version: nat)

  /** `ofPerson` says whether the membership is one of the person to be removed. */
  datatype Membership = Membership(ofPerson: bool, role: string, active: bool, version: nat)

  datatype Grant = Grant(membership: nat, revokedAt: Option<int>, version: nat)

  /** The rows that give the person access: the person itself, memberships, grants, support approvals. */
  datatype Access = Access(person: bool, memberships: map<nat, Membership>,
                           grants: map<nat, Grant>, approvals: map<nat, Grant>)

  datatype Tables = Tables(request: Request, execution: Option<Execution>, workflow: Workflow, access: Access)

  datatype Hold = Hold(category: string, startsAt: int, expiresAt: Option<int>, released: bool)

  predicate ActiveAt(hold: Hold, at: int) {
    !hold.released && hold.startsAt <= at && (hold.expiresAt.None? || hold.expiresAt.value > at)
  }

  /** `select distinct category`; the order by text is left open. */
  function ActiveCategories(holds: seq<Hold>, at: int): (categories: seq<string>)
    ensures categories == [] <==> forall h :: h in holds ==> !ActiveAt(h, at)
  {
    if holds == [] then []
    else
      var rest := ActiveCategories(holds[1..], at);
      if ActiveAt(holds[0], at) && holds[0].category !in rest then [holds[0].category] + rest else rest
  }

  /** Exactly the categories of the holds that have begun, not ended and not been released, each once. */
  lemma {:induction false} ActiveCategoriesAreThose(holds: seq<Hold>, at: int, category: string)
    ensures category in ActiveCategories(holds, at) <==>
      exists h :: h in holds && h.category == category && !h.released && h.startsAt <= at
                  && (h.expiresAt.Some? ==> at < h.expiresAt.value)
    ensures var categories := ActiveCategories(holds, at);
      forall i, j :: 0 <= i < j < |categories| ==> categories[i] != categories[j]
    decreases |holds|
  {
    if holds != [] {
      ActiveCategoriesAreThose(holds[1..], at, category);
      assert forall h :: h in holds <==> h == holds[0] || h in holds[1..];
    }
  }

  function Revoke(grants: map<nat, Grant>, memberships: set<nat>, at: int): map<nat, Grant> {
    map g | g in grants ::
      if grants[g].membership in memberships && grants[g].revokedAt.None?
      then grants[g].(revokedAt := Some(at), version := grants[g].version + 1)
      else grants[g]
  }

  /** `where person_id=$1 and active=1`. */
  function ActiveMemberships(access: Access): set<nat> {
    set m | m in access.memberships && access.memberships[m].ofPerson && access.memberships[m].active
  }

  function Deactivate(memberships: map<nat, Membership>, ids: set<nat>): map<nat, Membership> {
    map m | m in memberships ::
      if m in ids then memberships[m].(active := false, version := memberships[m].version + 1) else memberships[m]
  }

  function RemovePerson(access: Access, at: int): Access {
    var ids := ActiveMemberships(access);
    Access(false,
           Deactivate(access.memberships, ids),
           Revoke(access.grants, ids, at),
           Revoke(access.approvals, ids, at))
  }

  lemma RemovalEndsAccess(access: Access, at: int)
    ensures var after := RemovePerson(access, at);
      && !after.person
      && after.memberships.Keys == access.memberships.Keys
      && (forall m :: m in after.memberships && after.memberships[m].ofPerson ==> !after.memberships[m].active)
      && (forall m :: m in after.memberships && !after.memberships[m].ofPerson ==>
            after.memberships[m] == access.memberships[m])
      && (forall m :: m in ActiveMemberships(access) ==>
            after.memberships[m] == access.memberships[m].(active := false, version := access.memberships[m].version + 1))
      && (forall g :: g in access.grants && access.grants[g].membership in ActiveMemberships(access) ==>
            g in after.grants && after.grants[g].revokedAt.Some?)
      && (forall g :: g in access.approvals && access.approvals[g].membership in ActiveMemberships(access) ==>
            g in after.approvals && after.approvals[g].revokedAt.Some?)
      && (forall g :: g in access.grants && access.grants[g].revokedAt.Some? ==>
            after.grants[g] == access.grants[g])
      && (forall g :: g in access.grants && access.grants[g].membership !in ActiveMemberships(access) ==>
            after.grants[g] == access.grants[g])
  {
  }

  // ----- the transactions as functions of committed rows -----

  datatype Kind =
    | Confirm(expectedVersion: nat, confirmedAt: int, recoveryDays: int)
    | Cancel(expectedVersion: nat)
    | Complete(expectedVersion: nat, at: int)

  const RETAINED := ["audit-events", "billing-records", "consent-acceptance", "privacy-request-evidence"]

  function ConfirmedRequest(r: Request, k: Kind): Request
    requires k.Confirm?
  {
    Request(RecoveryPeriod, r.version + 1, k.confirmedAt, k.confirmedAt + k.recoveryDays * DAY)
  }

  function ConfirmedWorkflow(w: Workflow): Workflow {
    Workflow(RunPending, [VerifyIdentity], Some(ActiveSystem), w.version + 1)
  }

  function NewExecution(k: Kind): Execution
    requires k.Confirm?
  {
    Execution(RecoveryPeriod, 1, k.confirmedAt + k.recoveryDays * DAY, None, [])
  }

  function Appended(steps: seq<Step>, step: Step): seq<Step> {
    if step in steps then steps else steps + [step]
  }

  function CancelledWorkflow(w: Workflow): Workflow {
    Workflow(RunCompleted, Appended(w.completedSteps, CancelStep), None, w.version + 1)
  }

  function BlockedWorkflow(w: Workflow): Workflow {
    w.(status := RunRunning, nextStep := Some(LegalHoldReview), version := w.version + 1)
  }

  function ReviewedWorkflow(w: Workflow): Workflow {
    Workflow(RunRunning, Appended(w.completedSteps, ActiveSystem), Some(SharedDataReview), w.version + 1)
  }

  function Confirmed(t: Tables, k: Kind): Option<Tables>
    requires k.Confirm?
  {
    if t.request.status != IdentityVerification || t.request.version != k.expectedVersion
       || k.recoveryDays <= 0 || t.workflow.nextStep != Some(VerifyIdentity) || t.execution.Some? then None
    else Some(t.(request := ConfirmedRequest(t.request, k),
                 workflow := ConfirmedWorkflow(t.workflow),
                 execution := Some(NewExecution(k))))
  }

  function Cancelled(t: Tables, k: Kind): Option<Tables>
    requires k.Cancel?
  {
    if t.request.status != RecoveryPeriod || t.request.version != k.expectedVersion
       || t.execution.None? || t.execution.value.status != RecoveryPeriod
       || t.workflow.status == RunCompleted then None
    else Some(t.(request := t.request.(status := CancelledRequest, version := t.request.version + 1),
                 execution := Some(t.execution.value.(
                                   status := CancelledRequest, version := t.execution.value.version + 1)),
                 workflow := CancelledWorkflow(t.workflow)))
  }

  predicate MayComplete(t: Tables, k: Kind)
    requires k.Complete?
  {
    && t.execution.Some? && t.execution.value.version == k.expectedVersion
    && t.execution.value.status == RecoveryPeriod && k.at >= t.execution.value.recoveryUntil
  }

  function BlockedExecution(e: Execution, categories: seq<string>): Execution {
    e.(status := BlockedLegalHold, retained := categories, version := e.version + 1)
  }

  function ReviewedExecution(e: Execution, at: int): Execution {
    e.(status := AwaitingReview, completedAt := Some(at), retained := RETAINED, version := e.version + 1)
  }

  function Completed(t: Tables, k: Kind, holds: seq<Hold>): Option<Tables>
    requires k.Complete?
  {
    if !MayComplete(t, k) then None
    else if ActiveCategories(holds, k.at) != [] then
      Some(t.(execution := Some(BlockedExecution(t.execution.value, ActiveCategories(holds, k.at))),
              request := t.request.(status := BlockedLegalHold, version := t.request.version + 1),
              workflow := BlockedWorkflow(t.workflow)))
    else
      Some(t.(execution := Some(ReviewedExecution(t.execution.value, k.at)),
              request := t.request.(status := AwaitingReview, version := t.request.version + 1),
              workflow := ReviewedWorkflow(t.workflow),
              access := RemovePerson(t.access, k.at)))
  }

  function Serial(t: Tables, k: Kind, holds: seq<Hold>): Option<Tables> {
    match k
    case Confirm(_, _, _) => Confirmed(t, k)
    case Cancel(_) => Cancelled(t, k)
    case Complete(_, _) => Completed(t, k, holds)
  }

  // ----- lockstep -----

  /** The five joint positions of the three rows, and what each says about the person. */
  predicate Lockstep(t: Tables) {
    && (t.execution.Some? ==> t.request.recoveryUntil == t.execution.value.recoveryUntil)
    && (t.execution.Some? ==> t.execution.value.status == t.request.status)
    && (t.execution.None? <==> t.request.status == IdentityVerification)
    && (t.request.status != AwaitingReview ==> t.access.person)
    && match t.request.status
       case IdentityVerification =>
         t.workflow.(version := 0) == Workflow(RunPending, [], Some(VerifyIdentity), 0)
       case RecoveryPeriod =>
         t.workflow.(version := 0) == Workflow(RunPending, [VerifyIdentity], Some(ActiveSystem), 0)
       case CancelledRequest =>
         t.workflow.(version := 0) == Workflow(RunCompleted, [VerifyIdentity, CancelStep], None, 0)
       case BlockedLegalHold =>
         t.workflow.(version := 0) == Workflow(RunRunning, [VerifyIdentity], Some(LegalHoldReview), 0)
       case AwaitingReview =>
         && t.workflow.(version := 0) == Workflow(RunRunning, [VerifyIdentity, ActiveSystem], Some(SharedDataReview), 0)
         && !t.access.person
         && t.execution.value.completedAt.Some?
         && t.execution.value.completedAt.value >= t.request.recoveryUntil
  }

  lemma SerialKeepsLockstep(t: Tables, k: Kind, holds: seq<Hold>)
    requires Lockstep(t) && Serial(t, k, holds).Some?
    ensures Lockstep(Serial(t, k, holds).value)
  {
    assert [VerifyIdentity] + [CancelStep] == [VerifyIdentity, CancelStep];
    assert [VerifyIdentity] + [ActiveSystem] == [VerifyIdentity, ActiveSystem];
  }

  // ----- when each transaction is accepted, and what it leaves -----

  /** A confirmation is accepted exactly before any other, at the expected version, for a positive number of days. */
  lemma ConfirmsExactlyWhen(t: Tables, k: Kind)
    requires k.Confirm? && Lockstep(t)
    ensures Confirmed(t, k).Some? <==>
      t.request.status == IdentityVerification && t.request.version == k.expectedVersion && k.recoveryDays >= 1
    ensures Confirmed(t, k).Some? ==>
      var u := Confirmed(t, k).value;
      && u.access == t.access && u.request.status == RecoveryPeriod && u.request.version == t.request.version + 1
      && u.request.verifiedAt == k.confirmedAt
      && u.request.recoveryUntil - k.confirmedAt == k.recoveryDays * 24 * 60 * 60 * 1000
      && u.execution == Some(Execution(RecoveryPeriod, 1, u.request.recoveryUntil, None, []))
      && u.workflow.version == t.workflow.version + 1
  {
  }

  /** A cancellation is accepted exactly during the recovery period, at the expected version, and leaves all access. */
  lemma CancelsExactlyWhen(t: Tables, k: Kind)
    requires k.Cancel? && Lockstep(t)
    ensures Cancelled(t, k).Some? <==> t.request.status == RecoveryPeriod && t.request.version == k.expectedVersion
    ensures Cancelled(t, k).Some? ==>
      var u := Cancelled(t, k).value;
      && u.access == t.access
      && u.request == t.request.(status := CancelledRequest, version := t.request.version + 1)
      && u.execution.Some? && u.execution.value.status == CancelledRequest
      && u.execution.value.version == t.execution.value.version + 1
      && u.execution.value.completedAt == t.execution.value.completedAt
      && u.workflow.version == t.workflow.version + 1
  {
  }

  /**
   A completion is accepted exactly once the recovery period is over, at the expected version
   of the execution. With a hold it records the categories and leaves all access; without one
   it removes the person and records when, and what is retained.
   */
  lemma {:induction false} CompletesExactlyWhen(t: Tables, k: Kind, holds: seq<Hold>)
    requires k.Complete? && Lockstep(t)
    ensures Completed(t, k, holds).Some? <==>
      && t.request.status == RecoveryPeriod && k.at >= t.request.recoveryUntil
      && t.execution.Some? && t.execution.value.version == k.expectedVersion
    ensures Completed(t, k, holds).Some? ==>
      var u := Completed(t, k, holds).value;
      && u.request.version == t.request.version + 1 && u.workflow.version == t.workflow.version + 1
      && u.execution.Some? && u.execution.value.version == t.execution.value.version + 1
      && (if exists h :: h in holds && ActiveAt(h, k.at)
          then u.access == t.access && u.request.status == BlockedLegalHold
               && u.execution.value.completedAt == t.execution.value.completedAt
               && u.execution.value.retained == ActiveCategories(holds, k.at)
          else !u.access.person && u.access == RemovePerson(t.access, k.at) && u.request.status == AwaitingReview
               && u.execution.value.completedAt == Some(k.at)
               && u.execution.value.retained == ["audit-events", "billing-records", "consent-acceptance",
                                                 "privacy-request-evidence"])
  {
  }

  // ----- the statements of the repository, one transaction at a time -----

  class PrivacyRepository {
    var request: Request
    var execution: Option<Execution>
    var workflow: Workflow
    var access: Access
    var holds: seq<Hold>

    function Contents(): Tables
      reads this
    {
      Tables(request, execution, workflow, access)
    }

    constructor (access: Access)
      ensures Contents() == Tables(Request(IdentityVerification, 1, 0, 0), None,
                                   Workflow(RunPending, [], Some(VerifyIdentity), 1), access)
      ensures holds == []
    {
      request := Request(IdentityVerification, 1, 0, 0);
      execution := None;
      workflow := Workflow(RunPending, [], Some(VerifyIdentity), 1);
      this.access := access;
      holds := [];
    }

    method Rollback(before: Tables)
      modifies this
      ensures Contents() == before && holds == old(holds)
    {
      request, execution, workflow, access := before.request, before.execution, before.workflow, before.access;
    }

    /** A stale version, or a request already confirmed, changes nothing; no confirmation touches access. */
    method ConfirmPrivacyDeletion(k: Kind) returns (committed: bool)
      requires k.Confirm?
      modifies this
      ensures old(request).version != k.expectedVersion || old(request).status != IdentityVerification ==>
        !committed && Contents() == old(Contents())
      ensures access == old(access)
      ensures committed == Confirmed(old(Contents()), k).Some? && holds == old(holds)
      ensures Contents() == if committed then Confirmed(old(Contents()), k).value else old(Contents())
    {
      var before := Contents();
      if request.status != IdentityVerification {
        return false;
      }
      if request.version != k.expectedVersion || k.recoveryDays <= 0 {
        return false;
      }
      request := request.(
        status := RecoveryPeriod,
        verifiedAt := k.confirmedAt,
        recoveryUntil := k.confirmedAt + k.recoveryDays * DAY,
        version := request.version + 1);
      if workflow.nextStep != Some(VerifyIdentity) {
        Rollback(before);
        return false;
      }
      workflow := Workflow(RunPending, [VerifyIdentity], Some(ActiveSystem), workflow.version + 1);
      if execution.Some? {
        Rollback(before);
        return false;
      }
      execution := Some(Execution(RecoveryPeriod, 1, request.recoveryUntil, None, []));
      committed := true;
    }

    /** A stale version, or any status but the recovery period, changes nothing; no cancellation touches access. */
    method CancelPrivacyDeletion(k: Kind) returns (committed: bool)
      requires k.Cancel?
      modifies this
      ensures old(request).version != k.expectedVersion || old(request).status != RecoveryPeriod ==>
        !committed && Contents() == old(Contents())
      ensures access == old(access)
      ensures committed == Cancelled(old(Contents()), k).Some? && holds == old(holds)
      ensures Contents() == if committed then Cancelled(old(Contents()), k).value else old(Contents())
    {
      var before := Contents();
      if !(request.status == RecoveryPeriod && request.version == k.expectedVersion) {
        return false;
      }
      request := request.(status := CancelledRequest, version := request.version + 1);
      if !(execution.Some? && execution.value.status == RecoveryPeriod) {
        Rollback(before);
        return false;
      }
      execution := Some(execution.value.(status := CancelledRequest, version := execution.value.version + 1));
      if workflow.status == RunCompleted {
        Rollback(before);
        return false;
      }
      if CancelStep !in workflow.completedSteps {
        workflow := workflow.(completedSteps := workflow.completedSteps + [CancelStep]);
      }
      workflow := workflow.(status := RunCompleted, nextStep := None, version := workflow.version + 1);
      committed := true;
    }

    /** The removal: revoke and deactivate what the active memberships hold, then delete the person. */
    method EndAccess(at: int)
      modifies `access
      ensures access == RemovePerson(old(access), at)
    {
      var membershipIds := ActiveMemberships(access);
      if membershipIds != {} {
        access := access.(grants := Revoke(access.grants, membershipIds, at));
        access := access.(approvals := Revoke(access.approvals, membershipIds, at));
        access := access.(memberships := map m | m in access.memberships ::
                            if m in membershipIds && access.memberships[m].active
                            then access.memberships[m].(active := false, version := access.memberships[m].version + 1)
                            else access.memberships[m]);
        assert access.memberships == Deactivate(old(access).memberships, membershipIds);
      } else {
        assert Revoke(access.grants, {}, at) == access.grants;
        assert Revoke(access.approvals, {}, at) == access.approvals;
        assert RemovePerson(access, at).memberships == access.memberships;
      }
      access := access.(person := false);
    }

    /** Before its time, or at a stale version, it changes nothing; under a hold it leaves all access. */
    method CompletePrivacyDeletionActiveSystem(k: Kind) returns (committed: bool)
      requires k.Complete?
      modifies this
      ensures old(execution).Some? && (old(execution).value.version != k.expectedVersion
                                       || k.at < old(execution).value.recoveryUntil) ==>
        !committed && Contents() == old(Contents())
      ensures committed && (exists h :: h in holds && ActiveAt(h, k.at)) ==> access == old(access)
      ensures committed && (forall h :: h in holds ==> !ActiveAt(h, k.at)) ==>
        !access.person && ActiveMemberships(access) == {} && execution.Some? && execution.value.completedAt == Some(k.at)
      ensures committed == Completed(old(Contents()), k, holds).Some? && holds == old(holds)
      ensures Contents() == if committed then Completed(old(Contents()), k, holds).value else old(Contents())
    {
      if !(execution.Some? && execution.value.version == k.expectedVersion
           && execution.value.status == RecoveryPeriod) {
        return false;
      }
      if k.at < execution.value.recoveryUntil {
        return false;
      }
      committed := true;
      var legalHoldCategories := ActiveCategories(holds, k.at);
      if |legalHoldCategories| > 0 {
        execution := Some(execution.value.(
                          status := BlockedLegalHold,
                          retained := legalHoldCategories,
                          version := execution.value.version + 1));
        request := request.(status := BlockedLegalHold, version := request.version + 1);
        workflow := workflow.(status := RunRunning, nextStep := Some(LegalHoldReview), version := workflow.version + 1);
        return;
      }
      EndAccess(k.at);
      execution := Some(execution.value.(
                        status := AwaitingReview,
                        completedAt := Some(k.at),
                        retained := RETAINED,
                        version := execution.value.version + 1));
      request := request.(status := AwaitingReview, version := request.version + 1);
      if ActiveSystem !in workflow.completedSteps {
        workflow := workflow.(completedSteps := workflow.completedSteps + [ActiveSystem]);
      }
      workflow := workflow.(status := RunRunning, nextStep := Some(SharedDataReview), version := workflow.version + 1);
    }
  }
}

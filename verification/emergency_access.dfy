/**
 Emergency access: filing, deciding and releasing requests, what a resolved identity may
 read because of them, and what must have happened before it may.
 */
module EmergencyAccess {
  import opened Prelude
  import opened Authorization

  datatype Status = Requested | Approved | Denied | Delayed | Released | Revoked

  datatype Row = Row(requesterId: nat, recipientMembershipId: nat, categories: set<Category>, status: Status,
                     requestedAt: int, decisionAt: Option<int>, releaseAfter: Option<int>, version: nat)

  datatype Membership = Membership(personId: nat, active: bool, role: Role, grants: seq<Grant>,
                                   supportApprovals: seq<SupportApproval>)

  datatype Tables = Tables(requests: map<nat, Row>, memberships: map<nat, Membership>)

  // ----- the domain's table -----

  function Transitions(status: Status): set<Status> {
    match status
    case Requested => {Approved, Denied, Delayed, Revoked}
    case Approved => {Delayed, Released, Revoked}
    case Denied => {}
    case Delayed => {Approved, Denied, Released, Revoked}
    case Released => {Revoked}
    case Revoked => {}
  }

  /** The domain's table by where a request may come from: nothing returns to `Requested`, and two ends are final. */
  lemma TransitionsBySource(source: Status, next: Status)
    ensures next in Transitions(source) <==>
      match next
      case Requested => false
      case Approved => source == Requested || source == Delayed
      case Denied => source == Requested || source == Delayed
      case Delayed => source == Requested || source == Approved
      case Released => source == Approved || source == Delayed
      case Revoked => source != Denied && source != Revoked
  {
  }

  function TransitionEmergencyAccess(request: Row, next: Status, at: int): Result<Row> {
    if next !in Transitions(request.status) then Err("invalid emergency access transition")
    else if next.Released? && request.releaseAfter.Some? && at < request.releaseAfter.value then
      Err("emergency access delay has not elapsed")
    else Ok(request.(status := next, decisionAt := Some(at), version := request.version + 1))
  }

  // ----- the statements -----

  function Filed(t: Tables, id: nat, actorId: nat, membershipId: nat, categories: set<Category>, at: int)
    : Result<Tables>
  {
    if || membershipId !in t.memberships || t.memberships[membershipId].personId != actorId
       || !t.memberships[membershipId].active || !t.memberships[membershipId].role.EmergencyRecipient?
    then Err("emergency recipient membership is invalid")
    else if id in t.requests then Err("duplicate key")
    else Ok(t.(requests := t.requests[id := Row(actorId, membershipId, categories, Requested, at, None, None, 1)]))
  }

  datatype Choice = Deny | Delay

  function Decided(t: Tables, id: nat, expectedVersion: nat, choice: Choice, decisionAt: int, releaseAfter: Option<int>)
    : Result<Tables>
  {
    if id !in t.requests || t.requests[id].version != expectedVersion || !t.requests[id].status.Requested? then
      Err("emergency access decision conflict")
    else Ok(t.(requests := t.requests[id := t.requests[id].(
                status := if choice.Deny? then Denied else Delayed, decisionAt := Some(decisionAt),
                releaseAfter := releaseAfter, version := expectedVersion + 1)]))
  }

  function ReleasedBy(t: Tables, id: nat, expectedVersion: nat, releasedAt: int): Result<Tables> {
    if || id !in t.requests || t.requests[id].version != expectedVersion || !t.requests[id].status.Delayed?
       || t.requests[id].releaseAfter.None? || t.requests[id].releaseAfter.value > releasedAt
    then Err("emergency access release conflict or delay active")
    else Ok(t.(requests := t.requests[id := t.requests[id].(status := Released, version := expectedVersion + 1)]))
  }

  /**
   Every statement that changes a status makes a transition the domain allows, one version
   on. The domain stamps a release with its own time, which the statement does not.
   */
  lemma StatementsAreDomainTransitions(t: Tables, id: nat, version: nat, choice: Choice, at: int, after: Option<int>)
    ensures Decided(t, id, version, choice, at, after).Ok? ==>
      var row, next := t.requests[id], Decided(t, id, version, choice, at, after).value.requests[id];
      TransitionEmergencyAccess(row, next.status, at) == Ok(next.(releaseAfter := row.releaseAfter))
    ensures ReleasedBy(t, id, version, at).Ok? ==>
      var row, next := t.requests[id], ReleasedBy(t, id, version, at).value.requests[id];
      TransitionEmergencyAccess(row, Released, at) == Ok(next.(decisionAt := Some(at)))
  {
  }

  /** Releasing a delayed request: the statement and the domain agree exactly when a release time is set. */
  lemma ReleasesAgreeExactlyWithReleaseTime(t: Tables, id: nat, at: int)
    requires id in t.requests && t.requests[id].status.Delayed?
    ensures (forall at :: ReleasedBy(t, id, t.requests[id].version, at).Ok?
                          <==> TransitionEmergencyAccess(t.requests[id], Released, at).Ok?)
       <==> t.requests[id].releaseAfter.Some?
  {
    var row := t.requests[id];
    if row.releaseAfter.None? {
      assert ReleasedBy(t, id, row.version, at).Err? && TransitionEmergencyAccess(row, Released, at).Ok?;
    }
  }

  predicate IsOpenTo(row: Row, membershipId: nat, now: int) {
    && row.recipientMembershipId == membershipId && row.status.Released?
    && row.releaseAfter.Some? && row.releaseAfter.value <= now
  }

  /** The union over the released requests of the membership. */
  function ReleasedCategories(t: Tables, membershipId: nat, now: int): set<Category> {
    set id, category | id in t.requests && IsOpenTo(t.requests[id], membershipId, now)
                       && category in t.requests[id].categories :: category
  }

  /** Memberships and every other request are as they were. */
  predicate OthersUntouched(before: Tables, after: Tables, id: nat) {
    && after.memberships == before.memberships
    && (after.requests.Keys == before.requests.Keys || after.requests.Keys == before.requests.Keys + {id})
    && forall other :: other in before.requests && other != id ==> after.requests[other] == before.requests[other]
  }

  /** The categories open to a membership, when one request changes. */
  lemma OneRequestOpens(before: Tables, after: Tables, id: nat, membershipId: nat, now: int)
    requires OthersUntouched(before, after, id) && id in after.requests
    requires id in before.requests ==> !before.requests[id].status.Released?
    ensures ReleasedCategories(after, membershipId, now)
         == ReleasedCategories(before, membershipId, now)
            + (if IsOpenTo(after.requests[id], membershipId, now) then after.requests[id].categories else {})
  {
    var open := if IsOpenTo(after.requests[id], membershipId, now) then after.requests[id].categories else {};
    forall category ensures category in ReleasedCategories(after, membershipId, now)
                       <==> category in ReleasedCategories(before, membershipId, now) + open
    {
      if category in ReleasedCategories(before, membershipId, now) {
        var other :| other in before.requests && IsOpenTo(before.requests[other], membershipId, now)
                     && category in before.requests[other].categories;
        assert after.requests[other] == before.requests[other];
      }
      if category in ReleasedCategories(after, membershipId, now) {
        var other :| other in after.requests && IsOpenTo(after.requests[other], membershipId, now)
                     && category in after.requests[other].categories;
        assert other != id ==> before.requests[other] == after.requests[other];
      }
    }
  }

  lemma OneRequestOpensForAll(before: Tables, after: Tables, id: nat)
    requires OthersUntouched(before, after, id) && id in after.requests
    requires id in before.requests ==> !before.requests[id].status.Released?
    ensures forall membership, now ::
      ReleasedCategories(after, membership, now)
      == ReleasedCategories(before, membership, now)
         + (if IsOpenTo(after.requests[id], membership, now) then after.requests[id].categories else {})
  {
    forall membership, now
      ensures ReleasedCategories(after, membership, now)
           == ReleasedCategories(before, membership, now)
              + (if IsOpenTo(after.requests[id], membership, now) then after.requests[id].categories else {})
    {
      OneRequestOpens(before, after, id, membership, now);
    }
  }

  class EmergencyRepository {
    var tables: Tables

    constructor (tables: Tables)
      ensures this.tables == tables
    {
      this.tables := tables;
    }

    /** Only the recipient's own active membership files, and a filed request opens nothing yet. */
    method CreateEmergencyAccessRequest(id: nat, actorId: nat, membershipId: nat, categories: set<Category>, at: int)
      returns (version: Result<nat>)
      modifies this
      ensures version.Ok? == Filed(old(tables), id, actorId, membershipId, categories, at).Ok?
      ensures version.Ok? <==>
        && id !in old(tables).requests && membershipId in old(tables).memberships
        && old(tables).memberships[membershipId].personId == actorId && old(tables).memberships[membershipId].active
        && old(tables).memberships[membershipId].role == EmergencyRecipient
      ensures version.Ok? ==>
        && id in tables.requests && tables.requests[id].status == Requested
        && tables.requests[id].requesterId == actorId && tables.requests[id].requestedAt == at
        && tables.requests[id].decisionAt.None? && tables.requests[id].releaseAfter.None?
        && tables.requests[id].version == 1
        && membershipId in tables.memberships && tables.memberships[membershipId].personId == actorId
        && tables.memberships[membershipId].active && tables.memberships[membershipId].role.EmergencyRecipient?
        && tables.requests[id].recipientMembershipId == membershipId && tables.requests[id].categories == categories
      ensures OthersUntouched(old(tables), tables, id)
      ensures forall membership, now ::
        ReleasedCategories(tables, membership, now) == ReleasedCategories(old(tables), membership, now)
      ensures version.Ok? ==>
        version.value == 1 && tables == Filed(old(tables), id, actorId, membershipId, categories, at).value
      ensures version.Err? ==> tables == old(tables)
    {
      if membershipId !in tables.memberships {
        return Err("emergency recipient membership is invalid");
      }
      var recipient := tables.memberships[membershipId];
      if recipient.personId != actorId || !recipient.active || !recipient.role.EmergencyRecipient? {
        return Err("emergency recipient membership is invalid");
      }
      if id in tables.requests {
        return Err("duplicate key");
      }
      var row := Row(actorId, membershipId, categories, Requested, at, None, None, 1);
      tables := tables.(requests := tables.requests[id := row]);
      version := Ok(row.version);
      OneRequestOpensForAll(old(tables), tables, id);
    }

    /** A decision is the domain's transition out of `Requested`, and opens nothing yet. */
    method DecideEmergencyAccess(id: nat, expectedVersion: nat, choice: Choice, decisionAt: int,
                                 releaseAfter: Option<int>)
      returns (version: Result<nat>)
      modifies this
      ensures version.Ok? == Decided(old(tables), id, expectedVersion, choice, decisionAt, releaseAfter).Ok?
      ensures version.Ok? ==>
        && id in old(tables).requests && id in tables.requests && old(tables).requests[id].status.Requested?
        && tables.requests[id].releaseAfter == releaseAfter
        && TransitionEmergencyAccess(old(tables).requests[id], if choice.Deny? then Denied else Delayed, decisionAt)
           == Ok(tables.requests[id].(releaseAfter := old(tables).requests[id].releaseAfter))
      ensures OthersUntouched(old(tables), tables, id)
      ensures forall membership, now ::
        ReleasedCategories(tables, membership, now) == ReleasedCategories(old(tables), membership, now)
      ensures version.Ok? ==>
        && version.value == expectedVersion + 1
        && tables == Decided(old(tables), id, expectedVersion, choice, decisionAt, releaseAfter).value
      ensures version.Err? ==> tables == old(tables)
    {
      var status := if choice.Deny? then Denied else Delayed;
      if id !in tables.requests {
        return Err("emergency access decision conflict");
      }
      var row := tables.requests[id];
      if row.version != expectedVersion || !row.status.Requested? {
        return Err("emergency access decision conflict");
      }
      row := row.(status := status, decisionAt := Some(decisionAt), releaseAfter := releaseAfter,
                  version := row.version + 1);
      tables := tables.(requests := tables.requests[id := row]);
      version := Ok(row.version);
      OneRequestOpensForAll(old(tables), tables, id);
    }

    /** A release is the domain's transition out of `Delayed`, not before its time, and opens exactly this request. */
    method ReleaseEmergencyAccess(id: nat, expectedVersion: nat, releasedAt: int) returns (version: Result<nat>)
      modifies this
      ensures version.Ok? == ReleasedBy(old(tables), id, expectedVersion, releasedAt).Ok?
      ensures version.Ok? ==>
        && id in old(tables).requests && id in tables.requests && old(tables).requests[id].status.Delayed?
        && TransitionEmergencyAccess(old(tables).requests[id], Released, releasedAt)
           == Ok(tables.requests[id].(decisionAt := Some(releasedAt)))
        && IsOpenTo(tables.requests[id], tables.requests[id].recipientMembershipId, releasedAt)
      ensures OthersUntouched(old(tables), tables, id)
      ensures version.Ok? ==> forall membership, now ::
        ReleasedCategories(tables, membership, now)
        == ReleasedCategories(old(tables), membership, now)
           + (if IsOpenTo(tables.requests[id], membership, now) then tables.requests[id].categories else {})
      ensures version.Ok? ==>
        version.value == expectedVersion + 1 && tables == ReleasedBy(old(tables), id, expectedVersion, releasedAt).value
      ensures version.Err? ==> tables == old(tables)
    {
      if id !in tables.requests {
        return Err("emergency access release conflict or delay active");
      }
      var row := tables.requests[id];
      if || row.version != expectedVersion || !row.status.Delayed? || row.releaseAfter.None?
         || row.releaseAfter.value > releasedAt
      {
        return Err("emergency access release conflict or delay active");
      }
      row := row.(status := Released, version := row.version + 1);
      tables := tables.(requests := tables.requests[id := row]);
      version := Ok(row.version);
      OneRequestOpensForAll(old(tables), tables, id);
    }
  }

  // ----- resolving an identity -----

  /** `revoked_at is null and starts_at<=now() and expires_at>now()`. */
  predicate IsRunning(a: SupportApproval, now: int) {
    !a.revoked && NotAfter(a.startsAt, At(now)) && After(a.expiresAt, At(now))
  }

  function Running(approvals: seq<SupportApproval>, now: int): seq<SupportApproval> {
    if approvals == [] then []
    else (if IsRunning(approvals[0], now) then [approvals[0]] else []) + Running(approvals[1..], now)
  }

  function Resolve(t: Tables, membershipId: nat, sessionIssuedAt: Time, mfaVerifiedAt: Option<Time>, now: int)
    : Result<Identity>
  {
    if membershipId !in t.memberships || !t.memberships[membershipId].active then Err("membership unavailable")
    else
      var m := t.memberships[membershipId];
      Ok(Identity(membershipId, m.personId, m.role, m.grants, sessionIssuedAt, mfaVerifiedAt,
                  if m.role.SupportAgent? then Running(m.supportApprovals, now) else [],
                  if m.role.EmergencyRecipient? then ReleasedCategories(t, membershipId, now) else {}))
  }

  lemma {:induction false} RunningAreThose(approvals: seq<SupportApproval>, now: int, a: SupportApproval)
    ensures a in Running(approvals, now) <==> a in approvals && IsRunning(a, now)
    decreases |approvals|
  {
    if approvals != [] {
      RunningAreThose(approvals[1..], now, a);
      assert approvals == [approvals[0]] + approvals[1..];
    }
  }

  /**
   An identity is its active membership: the person, role and grants of the row; for an
   agent the approvals that are running, for a recipient the categories of the requests
   released to that membership whose time has come, and for everybody else neither.
   */
  lemma IdentityIsTheMembership(t: Tables, membershipId: nat, sessionIssuedAt: Time, mfaVerifiedAt: Option<Time>, now: int)
    ensures var identity := Resolve(t, membershipId, sessionIssuedAt, mfaVerifiedAt, now);
      && (identity.Ok? <==> membershipId in t.memberships && t.memberships[membershipId].active)
      && (identity.Ok? ==>
            var who, m := identity.value, t.memberships[membershipId];
            && who.membershipId == membershipId && who.personId == m.personId && who.role == m.role
            && who.grants == m.grants && who.sessionIssuedAt == sessionIssuedAt && who.mfaVerifiedAt == mfaVerifiedAt
            && (forall a :: a in who.supportApprovals <==>
                  m.role == SupportAgent && a in m.supportApprovals && !a.revoked
                  && a.startsAt.At? && a.expiresAt.At? && a.startsAt.ms <= now < a.expiresAt.ms)
            && (forall category :: category in who.emergencyReleaseCategories <==>
                  m.role == EmergencyRecipient && WasReleasedTo(t, membershipId, category, now)))
  {
    if membershipId in t.memberships {
      forall a ensures a in Running(t.memberships[membershipId].supportApprovals, now)
                  <==> a in t.memberships[membershipId].supportApprovals && IsRunning(a, now)
      {
        RunningAreThose(t.memberships[membershipId].supportApprovals, now, a);
      }
    }
  }

  /** A released request of the membership lists the category, and its release time has passed. */
  predicate WasReleasedTo(t: Tables, membershipId: nat, category: Category, now: int) {
    exists id :: id in t.requests && t.requests[id].recipientMembershipId == membershipId
                 && t.requests[id].status == Released && category in t.requests[id].categories
                 && t.requests[id].releaseAfter.Some? && t.requests[id].releaseAfter.value <= now
  }

  /** From the tables to the decision: a recipient reads exactly what was released to them and a grant of theirs names. */
  lemma RecipientReadsExactly(t: Tables, membershipId: nat, sessionIssuedAt: Time, mfaVerifiedAt: Option<Time>, now: int,
                              category: Category, purpose: string, clock: Time)
    requires membershipId in t.memberships && t.memberships[membershipId].active
    requires t.memberships[membershipId].role == EmergencyRecipient
    ensures var who := Resolve(t, membershipId, sessionIssuedAt, mfaVerifiedAt, now).value;
      Authorize(who, category, Read, purpose, clock) == Allow <==>
        && !IsBlank(purpose) && WithinAge(sessionIssuedAt, clock, WEEK_MS)
        && WasReleasedTo(t, membershipId, category, now)
        && exists i :: 0 <= i < |t.memberships[membershipId].grants|
                       && Grants(t.memberships[membershipId].grants[i], purpose, category, Read, clock)
  {
    IdentityIsTheMembership(t, membershipId, sessionIssuedAt, mfaVerifiedAt, now);
    var who := Resolve(t, membershipId, sessionIssuedAt, mfaVerifiedAt, now).value;
    RecipientIsDecidedExactly(who, category, Read, purpose, clock);
  }

  // ----- the routes, and whole runs -----

  datatype Event =
    | WasFiled(id: nat, membershipId: nat, categories: set<Category>)
    | WasDelayed(id: nat, role: Role, decidedAt: int, releaseAfter: int)
    | WasReleased(id: nat, role: Role, releasedAt: int)

  datatype System = System(tables: Tables, log: seq<Event>)

  datatype Step =
    | SetMembership(id: nat, row: Membership)
    | File(id: nat, who: Identity, categories: set<Category>, now: int)
    | Decide(id: nat, who: Identity, expectedVersion: nat, choice: Choice, delayHours: nat, now: int)
    | Release(id: nat, who: Identity, expectedVersion: nat, now: int)

  predicate MayForAll(who: Identity, categories: set<Category>, action: Action, purpose: string, now: int) {
    forall category :: category in categories ==> Authorize(who, category, action, purpose, At(now)) == Allow
  }

  function ReleaseTime(now: int, delayHours: nat): (time: int)
    ensures delayHours >= 1 ==> time >= now + HOUR_MS
  {
    now + delayHours * HOUR_MS
  }

  /** The routes; the categories a request lists never change, so they may be read with the update. */
  function Apply(s: System, step: Step): System {
    match step
    case SetMembership(id, row) => s.(tables := s.tables.(memberships := s.tables.memberships[id := row]))
    case File(id, who, categories, now) =>
      if categories == {} || !MayForAll(who, categories, Create, REQUEST_PURPOSE, now) then s
      else (match Filed(s.tables, id, who.personId, who.membershipId, categories, now)
            case Ok(t) => System(t, s.log + [WasFiled(id, who.membershipId, categories)])
            case Err(_) => s)
    case Decide(id, who, expectedVersion, choice, delayHours, now) =>
      if id !in s.tables.requests || (choice.Delay? && !(1 <= delayHours <= 168)) then s
      else if !MayForAll(who, s.tables.requests[id].categories, Approve, "vault.emergency-access.decide", now) then s
      else
        var releaseAfter := if choice.Delay? then Some(ReleaseTime(now, delayHours)) else None;
        (match Decided(s.tables, id, expectedVersion, choice, now, releaseAfter)
         case Ok(t) => System(t, if choice.Delay?
                                 then s.log + [WasDelayed(id, who.role, now, ReleaseTime(now, delayHours))] else s.log)
         case Err(_) => s)
    case Release(id, who, expectedVersion, now) =>
      if id !in s.tables.requests then s
      else if !MayForAll(who, s.tables.requests[id].categories, Approve, "vault.emergency-access.release", now) then s
      else (match ReleasedBy(s.tables, id, expectedVersion, now)
            case Ok(t) => System(t, s.log + [WasReleased(id, who.role, now)])
            case Err(_) => s)
  }

  function Execute(memberships: map<nat, Membership>, steps: seq<Step>): System {
    if steps == [] then System(Tables(map[], memberships), [])
    else Apply(Execute(memberships, steps[..|steps| - 1]), steps[|steps| - 1])
  }

  predicate IsOwner(role: Role) {
    role.Owner? || role.CoOwner?
  }

  predicate FiledAt(log: seq<Event>, f: nat, id: nat, row: Row) {
    f < |log| && log[f] == WasFiled(id, row.recipientMembershipId, row.categories)
  }

  predicate DelayedAt(log: seq<Event>, d: nat, id: nat, row: Row) {
    && d < |log| && log[d].WasDelayed? && log[d].id == id && IsOwner(log[d].role)
    && row.releaseAfter == Some(log[d].releaseAfter) && log[d].releaseAfter >= log[d].decidedAt + HOUR_MS
  }

  predicate ReleasedAt(log: seq<Event>, r: nat, id: nat, row: Row) {
    && r < |log| && log[r].WasReleased? && log[r].id == id && IsOwner(log[r].role)
    && row.releaseAfter.Some? && log[r].releasedAt >= row.releaseAfter.value
  }

  /** The history of one request, in order. */
  predicate Recorded(log: seq<Event>, id: nat, row: Row) {
    && row.categories != {}
    && (row.status.Requested? || row.status.Denied? || row.status.Delayed? || row.status.Released?)
    && (exists f :: 0 <= f < |log| && FiledAt(log, f, id, row))
    && (row.status.Delayed? ==>
          exists f, d :: 0 <= f < d < |log| && FiledAt(log, f, id, row) && DelayedAt(log, d, id, row))
    && (row.status.Released? ==>
          exists f, d, r :: 0 <= f < d < r < |log| && FiledAt(log, f, id, row) && DelayedAt(log, d, id, row)
                            && ReleasedAt(log, r, id, row))
  }

  predicate Invariant(s: System) {
    forall id :: id in s.tables.requests ==> Recorded(s.log, id, s.tables.requests[id])
  }

  lemma RecordedGrows(log: seq<Event>, e: Event, id: nat, row: Row)
    requires Recorded(log, id, row)
    ensures Recorded(log + [e], id, row)
  {
    var longer := log + [e];
    var f :| 0 <= f < |log| && FiledAt(log, f, id, row);
    assert FiledAt(longer, f, id, row);
    if row.status.Delayed? {
      var f, d :| 0 <= f < d < |log| && FiledAt(log, f, id, row) && DelayedAt(log, d, id, row);
      assert FiledAt(longer, f, id, row) && DelayedAt(longer, d, id, row);
    }
    if row.status.Released? {
      var f, d, r :| 0 <= f < d < r < |log| && FiledAt(log, f, id, row) && DelayedAt(log, d, id, row)
                     && ReleasedAt(log, r, id, row);
      assert FiledAt(longer, f, id, row) && DelayedAt(longer, d, id, row) && ReleasedAt(longer, r, id, row);
    }
  }

  lemma ApprovedByOwner(who: Identity, categories: set<Category>, purpose: string, now: int)
    requires categories != {} && MayForAll(who, categories, Approve, purpose, now)
    ensures IsOwner(who.role)
  {
    var category :| category in categories;
    OnlyOwnersApprove(who, category, purpose, At(now));
  }

  lemma FilingIsRecorded(s: System, step: Step, row: Row)
    requires step.File? && Invariant(s)
    requires row == Row(step.who.personId, step.who.membershipId, step.categories, Requested, step.now, None, None, 1)
    requires step.categories != {}
    ensures Recorded(s.log + [WasFiled(step.id, step.who.membershipId, step.categories)], step.id, row)
  {
    assert FiledAt(s.log + [WasFiled(step.id, step.who.membershipId, step.categories)], |s.log|, step.id, row);
  }

  lemma DelayedRowIsRecorded(log: seq<Event>, id: nat, row: Row, next: Row, e: Event)
    requires Recorded(log, id, row) && next.status.Delayed?
    requires next.recipientMembershipId == row.recipientMembershipId && next.categories == row.categories
    requires e.WasDelayed? && e.id == id && IsOwner(e.role) && next.releaseAfter == Some(e.releaseAfter)
    requires e.releaseAfter >= e.decidedAt + HOUR_MS
    ensures Recorded(log + [e], id, next)
  {
    var f :| 0 <= f < |log| && FiledAt(log, f, id, row);
    assert FiledAt(log + [e], f, id, next) && DelayedAt(log + [e], |log|, id, next);
  }

  lemma DelayIsRecorded(s: System, step: Step)
    requires step.Decide? && step.choice.Delay? && Invariant(s) && Apply(s, step) != s
    ensures step.id in Apply(s, step).tables.requests
    ensures Recorded(Apply(s, step).log, step.id, Apply(s, step).tables.requests[step.id])
  {
    var row := s.tables.requests[step.id];
    var releaseAfter := ReleaseTime(step.now, step.delayHours);
    assert Recorded(s.log, step.id, row);
    ApprovedByOwner(step.who, row.categories, "vault.emergency-access.decide", step.now);
    var next := Decided(s.tables, step.id, step.expectedVersion, Delay, step.now, Some(releaseAfter)).value.requests[step.id];
    DelayedRowIsRecorded(s.log, step.id, row, next, WasDelayed(step.id, step.who.role, step.now, releaseAfter));
  }

  lemma ReleaseIsRecorded(s: System, step: Step)
    requires step.Release? && Invariant(s) && Apply(s, step) != s
    ensures step.id in Apply(s, step).tables.requests
    ensures Recorded(Apply(s, step).log, step.id, Apply(s, step).tables.requests[step.id])
  {
    var row, u := s.tables.requests[step.id], Apply(s, step);
    var next := u.tables.requests[step.id];
    assert Recorded(s.log, step.id, row);
    ApprovedByOwner(step.who, row.categories, "vault.emergency-access.release", step.now);
    var f, d :| 0 <= f < d < |s.log| && FiledAt(s.log, f, step.id, row) && DelayedAt(s.log, d, step.id, row);
    assert FiledAt(u.log, f, step.id, next) && DelayedAt(u.log, d, step.id, next);
    assert ReleasedAt(u.log, |s.log|, step.id, next);
  }

  lemma DenialIsRecorded(s: System, step: Step)
    requires step.Decide? && step.choice.Deny? && Invariant(s) && Apply(s, step) != s
    ensures step.id in Apply(s, step).tables.requests
    ensures Recorded(Apply(s, step).log, step.id, Apply(s, step).tables.requests[step.id])
  {
    var row, u := s.tables.requests[step.id], Apply(s, step);
    assert Recorded(s.log, step.id, row);
    var f :| 0 <= f < |s.log| && FiledAt(s.log, f, step.id, row);
    assert FiledAt(u.log, f, step.id, u.tables.requests[step.id]);
  }

  /** What a step leaves of the other requests, and of the log. */
  lemma StepIsLocal(s: System, step: Step)
    ensures var u := Apply(s, step);
      && (u.log == s.log || exists e :: u.log == s.log + [e])
      && (forall id :: id in u.tables.requests && (step.SetMembership? || id != step.id) ==>
            id in s.tables.requests && u.tables.requests[id] == s.tables.requests[id])
  {
  }

  lemma StepKeepsInvariant(s: System, step: Step)
    requires Invariant(s)
    ensures Invariant(Apply(s, step))
  {
    var u := Apply(s, step);
    StepIsLocal(s, step);
    forall id | id in u.tables.requests ensures Recorded(u.log, id, u.tables.requests[id]) {
      if u == s || step.SetMembership? || id != step.id {
        assert Recorded(s.log, id, s.tables.requests[id]);
        if u.log != s.log {
          var e :| u.log == s.log + [e];
          RecordedGrows(s.log, e, id, s.tables.requests[id]);
        }
      } else if step.File? {
        FilingIsRecorded(s, step, u.tables.requests[id]);
      } else if step.Release? {
        ReleaseIsRecorded(s, step);
      } else if step.choice.Delay? {
        DelayIsRecorded(s, step);
      } else {
        DenialIsRecorded(s, step);
      }
    }
  }

  lemma {:induction false} RunsKeepInvariant(memberships: map<nat, Membership>, steps: seq<Step>)
    ensures Invariant(Execute(memberships, steps))
    decreases |steps|
  {
    if steps != [] {
      RunsKeepInvariant(memberships, steps[..|steps| - 1]);
      StepKeepsInvariant(Execute(memberships, steps[..|steps| - 1]), steps[|steps| - 1]);
    }
  }

  /** An owner's session of the last week and second factor of the last half day. */
  predicate MayApprove(who: Identity, now: int) {
    && who.role in {Owner, CoOwner} && WithinAge(who.sessionIssuedAt, At(now), WEEK_MS)
    && who.mfaVerifiedAt.Some? && WithinAge(who.mfaVerifiedAt.value, At(now), HALF_DAY_MS)
  }

  lemma ApprovalIsTheSameForAll(who: Identity, categories: set<Category>, purpose: string, now: int)
    requires categories != {} && !IsBlank(purpose)
    ensures MayForAll(who, categories, Approve, purpose, now) <==> MayApprove(who, now)
  {
    forall category | category in categories
      ensures Authorize(who, category, Approve, purpose, At(now)) == Allow <==> MayApprove(who, now)
    {
      if who.role in {Owner, CoOwner} {
        OwnerIsAllowedExactlyWhen(who, category, Approve, purpose, At(now));
      } else if Authorize(who, category, Approve, purpose, At(now)) == Allow {
        OnlyOwnersApprove(who, category, purpose, At(now));
      }
    }
    var category :| category in categories;
  }

  lemma DecidedExactlyWhen(t: Tables, id: nat, expectedVersion: nat, choice: Choice, at: int, after: Option<int>)
    ensures Decided(t, id, expectedVersion, choice, at, after).Ok? <==>
      id in t.requests && t.requests[id].version == expectedVersion && t.requests[id].status == Requested
    ensures Decided(t, id, expectedVersion, choice, at, after).Ok? ==>
      var u := Decided(t, id, expectedVersion, choice, at, after).value;
      && u != t && id in u.requests
      && u.requests[id] == t.requests[id].(status := if choice == Deny then Denied else Delayed,
                                           decisionAt := Some(at), releaseAfter := after,
                                           version := t.requests[id].version + 1)
  {
    if Decided(t, id, expectedVersion, choice, at, after).Ok? {
      assert Decided(t, id, expectedVersion, choice, at, after).value.requests[id].version != t.requests[id].version;
    }
  }

  /** The time an owner's delay lets pass: so many hours, or none given with a denial. */
  function DelayUntil(step: Step): Option<int>
    requires step.Decide?
  {
    if step.choice == Deny then None else Some(step.now + step.delayHours * 3_600_000)
  }

  /** The step is by an owner, with a delay of 1 to 168 hours if with any, on a request undecided at that version. */
  predicate IsDecision(s: System, step: Step)
    requires step.Decide?
  {
    && step.id in s.tables.requests && MayApprove(step.who, step.now)
    && s.tables.requests[step.id].version == step.expectedVersion
    && s.tables.requests[step.id].status == Requested
    && (step.choice == Delay ==> 1 <= step.delayHours <= 168)
  }

  lemma OwnersDecide(s: System, step: Step)
    requires step.Decide? && Invariant(s) && step.id in s.tables.requests
    ensures MayForAll(step.who, s.tables.requests[step.id].categories, Approve, "vault.emergency-access.decide", step.now)
       <==> MayApprove(step.who, step.now)
  {
    assert Recorded(s.log, step.id, s.tables.requests[step.id]);
    assert !IsBlank("vault.emergency-access.decide") by { assert "vault.emergency-access.decide"[0] == 'v'; }
    ApprovalIsTheSameForAll(step.who, s.tables.requests[step.id].categories, "vault.emergency-access.decide", step.now);
  }

  lemma OtherDecisionsDoNothing(s: System, step: Step)
    requires step.Decide? && Invariant(s) && !IsDecision(s, step)
    ensures Apply(s, step) == s
  {
    if step.id in s.tables.requests {
      OwnersDecide(s, step);
      DecidedExactlyWhen(s.tables, step.id, step.expectedVersion, step.choice, step.now, DelayUntil(step));
    }
  }

  lemma AcceptedDecisionApplies(s: System, step: Step)
    requires step.Decide? && step.id in s.tables.requests && (step.choice == Delay ==> 1 <= step.delayHours <= 168)
    requires MayForAll(step.who, s.tables.requests[step.id].categories, Approve, "vault.emergency-access.decide", step.now)
    requires Decided(s.tables, step.id, step.expectedVersion, step.choice, step.now, DelayUntil(step)).Ok?
    ensures Apply(s, step).tables
         == Decided(s.tables, step.id, step.expectedVersion, step.choice, step.now, DelayUntil(step)).value
  {
  }

  lemma DecisionsTakeEffect(s: System, step: Step)
    requires step.Decide? && Invariant(s) && IsDecision(s, step)
    ensures Apply(s, step).tables != s.tables
    ensures Decided(s.tables, step.id, step.expectedVersion, step.choice, step.now, DelayUntil(step)).Ok?
    ensures Apply(s, step).tables
         == Decided(s.tables, step.id, step.expectedVersion, step.choice, step.now, DelayUntil(step)).value
  {
    OwnersDecide(s, step);
    DecidedExactlyWhen(s.tables, step.id, step.expectedVersion, step.choice, step.now, DelayUntil(step));
    AcceptedDecisionApplies(s, step);
  }

  /** Deciding takes effect exactly so, and then as `Decided` says with the delay's end as release time. */
  lemma DecidingTakesEffectExactly(s: System, step: Step)
    requires step.Decide? && Invariant(s)
    ensures Apply(s, step) != s <==> IsDecision(s, step)
    ensures IsDecision(s, step) ==>
      Apply(s, step).tables
      == Decided(s.tables, step.id, step.expectedVersion, step.choice, step.now, DelayUntil(step)).value
  {
    if IsDecision(s, step) {
      DecisionsTakeEffect(s, step);
    } else {
      OtherDecisionsDoNothing(s, step);
    }
  }

  /** A recipient's filing takes effect exactly with categories, in a session of the last week, for their own active membership. */
  lemma FilingTakesEffectExactly(s: System, step: Step)
    requires step.File? && step.who.role == EmergencyRecipient
    ensures Apply(s, step) != s <==>
      && step.categories != {} && WithinAge(step.who.sessionIssuedAt, At(step.now), WEEK_MS)
      && step.id !in s.tables.requests && step.who.membershipId in s.tables.memberships
      && s.tables.memberships[step.who.membershipId].personId == step.who.personId
      && s.tables.memberships[step.who.membershipId].active
      && s.tables.memberships[step.who.membershipId].role == EmergencyRecipient
  {
    assert !IsBlank(REQUEST_PURPOSE) by { assert REQUEST_PURPOSE[0] == 'v'; }
    forall category | category in step.categories
      ensures Authorize(step.who, category, Create, REQUEST_PURPOSE, At(step.now)) == Allow
         <==> WithinAge(step.who.sessionIssuedAt, At(step.now), WEEK_MS)
    {
      RecipientIsDecidedExactly(step.who, category, Create, REQUEST_PURPOSE, At(step.now));
    }
    if step.categories != {} {
      var category :| category in step.categories;
    }
  }

  /** Releasing takes effect exactly for an owner, on a delayed request at its version whose time has come. */
  lemma ReleasingTakesEffectExactly(s: System, step: Step)
    requires step.Release? && Invariant(s)
    ensures Apply(s, step) != s <==>
      && step.id in s.tables.requests && MayApprove(step.who, step.now)
      && s.tables.requests[step.id].version == step.expectedVersion
      && s.tables.requests[step.id].status == Delayed
      && s.tables.requests[step.id].releaseAfter.Some? && s.tables.requests[step.id].releaseAfter.value <= step.now
    ensures Apply(s, step) != s ==>
      Apply(s, step).tables.requests[step.id]
      == s.tables.requests[step.id].(status := Released, version := s.tables.requests[step.id].version + 1)
  {
    if step.id in s.tables.requests {
      var row := s.tables.requests[step.id];
      assert Recorded(s.log, step.id, row);
      assert !IsBlank("vault.emergency-access.release") by { assert "vault.emergency-access.release"[0] == 'v'; }
      ApprovalIsTheSameForAll(step.who, row.categories, "vault.emergency-access.release", step.now);
      if ReleasedBy(s.tables, step.id, step.expectedVersion, step.now).Ok? {
        assert ReleasedBy(s.tables, step.id, step.expectedVersion, step.now).value.requests[step.id].version != row.version;
      }
    }
  }

  /** The three events that open a category to a membership, in order. */
  predicate OpenedBy(log: seq<Event>, f: nat, d: nat, r: nat, membershipId: nat, category: Category, now: int) {
    && f < d < r < |log|
    && log[f].WasFiled? && log[f].membershipId == membershipId && category in log[f].categories
    && log[d].WasDelayed? && log[d].id == log[f].id && IsOwner(log[d].role)
    && log[r].WasReleased? && log[r].id == log[f].id && IsOwner(log[r].role)
    && log[d].decidedAt + HOUR_MS <= log[d].releaseAfter <= log[r].releasedAt
    && log[d].releaseAfter <= now
  }

  /**
   In every run, whatever an emergency recipient is allowed beyond filing a request is
   reading, of a category that the same membership requested, an owner delayed by an hour or
   more, and an owner then released no earlier than the delay said.
   */
  lemma RecipientReadsOnlyWhatWasReleased(memberships: map<nat, Membership>, steps: seq<Step>, membershipId: nat,
                                          sessionIssuedAt: Time, mfaVerifiedAt: Option<Time>, now: int,
                                          category: Category, action: Action, purpose: string, clock: Time)
    returns (f: nat, d: nat, r: nat)
    requires
      var identity := Resolve(Execute(memberships, steps).tables, membershipId, sessionIssuedAt, mfaVerifiedAt, now);
      && identity.Ok? && identity.value.role.EmergencyRecipient?
      && Authorize(identity.value, category, action, purpose, clock) == Allow
    requires !(purpose == REQUEST_PURPOSE && action == Create)
    ensures action == Read && OpenedBy(Execute(memberships, steps).log, f, d, r, membershipId, category, now)
  {
    var s := Execute(memberships, steps);
    var identity := Resolve(s.tables, membershipId, sessionIssuedAt, mfaVerifiedAt, now).value;
    RecipientIsAllowedExactlyWhen(identity, category, action, purpose, clock);
    RunsKeepInvariant(memberships, steps);
    assert category in ReleasedCategories(s.tables, membershipId, now);
    var id :| id in s.tables.requests && IsOpenTo(s.tables.requests[id], membershipId, now)
              && category in s.tables.requests[id].categories;
    var row := s.tables.requests[id];
    assert Recorded(s.log, id, row);
    f, d, r :| 0 <= f < d < r < |s.log| && FiledAt(s.log, f, id, row) && DelayedAt(s.log, d, id, row)
               && ReleasedAt(s.log, r, id, row);
  }
}

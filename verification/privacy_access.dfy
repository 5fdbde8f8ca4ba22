/**
 The access rows while a deletion is under way. Other transactions change roles, let people
 join, grant, approve and revoke at any time; the completion reads the person's active
 memberships `for update`, and its updates of grants and approvals see only the rows that
 are committed when they run.
 */
module PrivacyAccess {
  import opened Prelude
  import opened PrivacyDeletion

  /** What the statements of a completion have done to the access rows so far, not yet committed. */
  datatype Removal = Removal(
    memberships: set<nat>,                 // locked by the `for update` read
    grantsSeen: Option<set<nat>>,          // the grants committed when the update of the grants ran
    approvalsSeen: Option<set<nat>>,
    deactivated: bool,
    deleted: bool)

  function Seen(rows: Option<set<nat>>): set<nat> {
    if rows.Some? then rows.value else {}
  }

  /** The rows an update revokes; it keeps them locked until the commit. */
  function Hits(rows: map<nat, Grant>, memberships: set<nat>, seen: set<nat>): set<nat> {
    set g | g in rows && g in seen && rows[g].membership in memberships && rows[g].revokedAt.None?
  }

  function RevokeSeen(rows: map<nat, Grant>, memberships: set<nat>, seen: set<nat>, at: int): map<nat, Grant> {
    map g | g in rows ::
      if g in Hits(rows, memberships, seen)
      then rows[g].(revokedAt := Some(at), version := rows[g].version + 1) else rows[g]
  }

  function AfterRemoval(a: Access, r: Removal, at: int): Access {
    Access(if r.deleted then false else a.person,
           if r.deactivated then Deactivate(a.memberships, r.memberships) else a.memberships,
           RevokeSeen(a.grants, r.memberships, Seen(r.grantsSeen), at),
           RevokeSeen(a.approvals, r.memberships, Seen(r.approvalsSeen), at))
  }

  /** The pending removal still describes the committed rows. */
  predicate Fits(a: Access, r: Removal) {
    r.memberships == ActiveMemberships(a) && Seen(r.grantsSeen) <= a.grants.Keys && Seen(r.approvalsSeen) <= a.approvals.Keys
  }

  predicate IsDone(r: Removal) {
    r.grantsSeen.Some? && r.approvalsSeen.Some? && r.deactivated && r.deleted
  }

  /** A row of the memberships that is still good: what a removal is there to end. */
  predicate Open(rows: map<nat, Grant>, memberships: set<nat>, g: nat) {
    g in rows && rows[g].membership in memberships && rows[g].revokedAt.None?
  }

  /**
   What a removal ends: every membership of the person that was active at the read, and of
   their grants and approvals exactly those its updates could see.
   */
  lemma RemovalEndsExactlyWhatItSaw(a: Access, r: Removal, at: int)
    requires Fits(a, r) && IsDone(r)
    ensures var after := AfterRemoval(a, r, at);
      && !after.person && ActiveMemberships(after) == {}
      && (forall m :: m in r.memberships ==> m in after.memberships && !after.memberships[m].active)
      && (forall m :: m in a.memberships && m !in r.memberships ==> after.memberships[m] == a.memberships[m])
      && (forall g :: Open(after.grants, r.memberships, g) <==>
            Open(a.grants, r.memberships, g) && g !in Seen(r.grantsSeen))
      && (forall g :: Open(after.approvals, r.memberships, g) <==>
            Open(a.approvals, r.memberships, g) && g !in Seen(r.approvalsSeen))
  {
    var after := AfterRemoval(a, r, at);
    assert forall g :: g in a.grants ==> after.grants[g].membership == a.grants[g].membership;
    assert forall g :: g in a.approvals ==> after.approvals[g].membership == a.approvals[g].membership;
  }

  /** No grant and no approval of the memberships came after the update that would have revoked it. */
  ghost predicate NothingLate(a: Access, r: Removal) {
    && (forall g :: Open(a.grants, r.memberships, g) ==> g in Seen(r.grantsSeen))
    && (forall g :: Open(a.approvals, r.memberships, g) ==> g in Seen(r.approvalsSeen))
  }

  lemma RevokesAll(rows: map<nat, Grant>, memberships: set<nat>, seen: set<nat>, at: int)
    ensures RevokeSeen(rows, memberships, seen, at) == Revoke(rows, memberships, at)
       <==> forall g :: Open(rows, memberships, g) ==> g in seen
  {
    var some, all := RevokeSeen(rows, memberships, seen, at), Revoke(rows, memberships, at);
    if forall g :: Open(rows, memberships, g) ==> g in seen {
      forall g | g in rows ensures some[g] == all[g] {
        assert Open(rows, memberships, g) <==> rows[g].membership in memberships && rows[g].revokedAt.None?;
      }
    } else {
      var g :| Open(rows, memberships, g) && g !in seen;
      assert some[g].revokedAt.None? && all[g].revokedAt.Some?;
    }
  }

  /** The statements do what one atomic removal would, exactly when nothing came late. */
  lemma RemovalIsAtomicExactly(a: Access, r: Removal, at: int)
    requires Fits(a, r) && IsDone(r)
    ensures AfterRemoval(a, r, at) == RemovePerson(a, at) <==> NothingLate(a, r)
  {
    RevokesAll(a.grants, r.memberships, Seen(r.grantsSeen), at);
    RevokesAll(a.approvals, r.memberships, Seen(r.approvalsSeen), at);
  }

  // ----- the other transactions -----

  /** An approval is checked against the committed membership and inserted later, without a lock. */
  datatype Change =
    | ChangeRole(m: nat, role: string)
    | Join(m: nat, role: string)
    | InsertGrant(g: nat, m: nat)
    | CheckApproval(g: nat, m: nat)
    | InsertApproval(g: nat)
    | DropApproval(g: nat)
    | RevokeApproval(g: nat, at: int)

  /** The committed rows, and the approvals that have been checked and not yet inserted. */
  datatype Office = Office(access: Access, approving: map<nat, nat>)

  /** A row that another transaction has locked makes the statement wait, so it does nothing yet. */
  function Changed(o: Office, c: Change, lockedMemberships: set<nat>, lockedApprovals: set<nat>): Office {
    var a := o.access;
    match c
    case ChangeRole(m, role) =>
      if m !in a.memberships || !a.memberships[m].active || a.memberships[m].role == "Owner" || m in lockedMemberships
      then o
      else
        var row := a.memberships[m].(role := role, version := a.memberships[m].version + 1);
        o.(access := a.(memberships := a.memberships[m := row]))
    case Join(m, role) =>
      if m in a.memberships then o
      else o.(access := a.(memberships := a.memberships[m := Membership(false, role, true, 1)]))
    case InsertGrant(g, m) =>
      if g in a.grants then o else o.(access := a.(grants := a.grants[g := Grant(m, None, 1)]))
    case CheckApproval(g, m) =>
      if m in a.memberships && a.memberships[m].active && a.memberships[m].role == "SupportAgent"
         && g !in a.approvals && g !in o.approving
      then o.(approving := o.approving[g := m]) else o
    case InsertApproval(g) =>
      if g !in o.approving || g in a.approvals then o
      else Office(a.(approvals := a.approvals[g := Grant(o.approving[g], None, 1)]), o.approving - {g})
    case DropApproval(g) => o.(approving := o.approving - {g})
    case RevokeApproval(g, at) =>
      if g !in a.approvals || a.approvals[g].revokedAt.Some? || g in lockedApprovals then o
      else o.(access := a.(approvals := a.approvals[g := a.approvals[g].(
                                          revokedAt := Some(at), version := a.approvals[g].version + 1)]))
  }

  /**
   Only an active member other than the owner changes role, only an active agent's membership
   is approved, only an approval checked before is inserted and only a good one revoked; none
   of it while the row is locked.
   */
  lemma ChangesTakeEffectExactly(o: Office, c: Change, lockedMemberships: set<nat>, lockedApprovals: set<nat>)
    ensures var a := o.access;
      Changed(o, c, lockedMemberships, lockedApprovals) != o <==>
      match c
      case ChangeRole(m, _) =>
        m in a.memberships && a.memberships[m].active && a.memberships[m].role != "Owner" && m !in lockedMemberships
      case Join(m, _) => m !in a.memberships
      case InsertGrant(g, _) => g !in a.grants
      case CheckApproval(g, m) =>
        && m in a.memberships && a.memberships[m].active && a.memberships[m].role == "SupportAgent"
        && g !in a.approvals && g !in o.approving
      case InsertApproval(g) => g in o.approving && g !in a.approvals
      case DropApproval(g) => g in o.approving
      case RevokeApproval(g, _) => g in a.approvals && a.approvals[g].revokedAt.None? && g !in lockedApprovals
  {
    var u := Changed(o, c, lockedMemberships, lockedApprovals);
    if c.ChangeRole? && u.access.memberships != o.access.memberships {
      assert u.access.memberships[c.m].version == o.access.memberships[c.m].version + 1;
    }
    assert c.Join? && c.m !in o.access.memberships ==> c.m in u.access.memberships;
    assert c.InsertGrant? && c.g !in o.access.grants ==> c.g in u.access.grants;
    assert c.DropApproval? && c.g !in o.approving ==> u.approving == o.approving;
  }

  /** What each change that takes effect leaves in its row. */
  lemma ChangesLeaveExactly(o: Office, c: Change, lockedMemberships: set<nat>, lockedApprovals: set<nat>)
    requires Changed(o, c, lockedMemberships, lockedApprovals) != o
    ensures var a, u := o.access, Changed(o, c, lockedMemberships, lockedApprovals);
      match c
      case ChangeRole(m, role) =>
        && m in a.memberships && m in u.access.memberships && u.access.memberships[m].role == role
        && u.access.memberships[m].version == a.memberships[m].version + 1
      case Join(m, role) =>
        && m in u.access.memberships && u.access.memberships[m].role == role
        && u.access.memberships[m].active && !u.access.memberships[m].ofPerson
      case InsertGrant(g, m) => g in u.access.grants && u.access.grants[g].membership == m && u.access.grants[g].revokedAt.None?
      case CheckApproval(g, m) => u.access == a && u.approving == o.approving[g := m]
      case InsertApproval(g) =>
        && g in o.approving && g in u.access.approvals && u.access.approvals[g].membership == o.approving[g]
        && u.access.approvals[g].revokedAt.None? && g !in u.approving
      case DropApproval(g) => u.access == a && g !in u.approving
      case RevokeApproval(g, at) =>
        && g in a.approvals && g in u.access.approvals && u.access.approvals[g].revokedAt == Some(at)
        && u.access.approvals[g].version == a.approvals[g].version + 1
  {
  }

  /** Nobody but a completion ends a membership of the person or removes a row, and nothing is un-revoked. */
  lemma ChangesLeaveThePerson(o: Office, c: Change, lockedMemberships: set<nat>, lockedApprovals: set<nat>)
    ensures var a, b := o.access, Changed(o, c, lockedMemberships, lockedApprovals).access;
      && b.person == a.person && ActiveMemberships(b) == ActiveMemberships(a)
      && (forall m :: m in a.memberships ==> m in b.memberships && (!a.memberships[m].active ==> b.memberships[m] == a.memberships[m]))
      && (forall g :: g in a.grants ==> g in b.grants && b.grants[g] == a.grants[g])
      && (forall g :: g in a.approvals ==>
            && g in b.approvals && b.approvals[g].membership == a.approvals[g].membership
            && (a.approvals[g].revokedAt.Some? || g in lockedApprovals ==> b.approvals[g] == a.approvals[g]))
  {
    var a, b := o.access, Changed(o, c, lockedMemberships, lockedApprovals).access;
    assert forall m :: m in ActiveMemberships(b) <==> m in ActiveMemberships(a);
  }

  lemma OnlyRevokingRevokes(o: Office, c: Change, lockedMemberships: set<nat>, lockedApprovals: set<nat>,
                            memberships: set<nat>, g: nat)
    requires Open(o.access.approvals, memberships, g)
    ensures Open(Changed(o, c, lockedMemberships, lockedApprovals).access.approvals, memberships, g)
         || (c.RevokeApproval? && c.g == g)
  {
  }

  lemma ChangesKeepFits(o: Office, c: Change, lockedMemberships: set<nat>, lockedApprovals: set<nat>, r: Removal)
    requires Fits(o.access, r)
    ensures Fits(Changed(o, c, lockedMemberships, lockedApprovals).access, r)
  {
    ChangesLeaveThePerson(o, c, lockedMemberships, lockedApprovals);
  }

  // ----- after the removal -----

  /** What stays true for good once a removal has committed; `late` are the approvals it could not see. */
  ghost predicate Ended(o: Office, r: Removal, late: set<nat>) {
    && !o.access.person && ActiveMemberships(o.access) == {}
    && (forall m :: m in r.memberships ==> m in o.access.memberships && !o.access.memberships[m].active)
    && Seen(r.grantsSeen) <= o.access.grants.Keys
    && (forall g :: g in Seen(r.grantsSeen) ==> !Open(o.access.grants, r.memberships, g))
    && (forall g :: Open(o.access.approvals, r.memberships, g) ==> g in late)
    && (forall g :: g in o.approving && o.approving[g] in r.memberships ==> g in late)
  }

  /** The approvals of the memberships that the update did not see: inserted since, or checked and still to come. */
  function Late(o: Office, r: Removal): set<nat> {
    (set g | g in o.access.approvals && Open(o.access.approvals, r.memberships, g) && g !in Seen(r.approvalsSeen))
    + (set g | g in o.approving && o.approving[g] in r.memberships)
  }

  lemma LateIsWhatTheUpdateCouldNotSee(o: Office, r: Removal, g: nat)
    requires r.approvalsSeen.Some?
    ensures g in Late(o, r) <==>
      || (g in o.access.approvals && o.access.approvals[g].revokedAt.None?
          && o.access.approvals[g].membership in r.memberships && g !in r.approvalsSeen.value)
      || (g in o.approving && o.approving[g] in r.memberships)
  {
  }

  lemma RemovalEnds(o: Office, r: Removal, at: int)
    requires Fits(o.access, r) && IsDone(r)
    ensures Ended(o.(access := AfterRemoval(o.access, r, at)), r, Late(o, r))
  {
    RemovalEndsExactlyWhatItSaw(o.access, r, at);
  }

  /** Only an approval that was checked before the removal committed can still appear after it. */
  lemma EndedStays(o: Office, c: Change, lockedMemberships: set<nat>, lockedApprovals: set<nat>, r: Removal, late: set<nat>)
    requires Ended(o, r, late)
    ensures Ended(Changed(o, c, lockedMemberships, lockedApprovals), r, late)
  {
    ChangesLeaveThePerson(o, c, lockedMemberships, lockedApprovals);
    var u := Changed(o, c, lockedMemberships, lockedApprovals);
    forall g | Open(u.access.approvals, r.memberships, g) ensures g in late {
      if g in o.access.approvals {
        assert Open(o.access.approvals, r.memberships, g);
      }
    }
  }
}

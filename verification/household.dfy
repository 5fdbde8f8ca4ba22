/**
 A household from its creation: invitations, their acceptance and revocation, and role
 changes, each one transaction guarded by a version, with the unique keys of the tables.
 */
module Household {
  import opened Prelude

  datatype Role = Owner | CoOwner | Editor | FamilyHelper | ProfessionalAdvisor | ReadOnlyViewer
                | EmergencyRecipient | SupportAgent | PlatformAdmin

  const ASSIGNABLE := {CoOwner, Editor, FamilyHelper, ProfessionalAdvisor, ReadOnlyViewer, EmergencyRecipient}

  datatype Membership = Membership(role: Role, authUser: string, active: bool, version: nat)

  datatype Invitation = Invitation(
    emailHash: string, tokenHash: string, role: Role, expiresAt: int,
    acceptedAt: Option<int>, acceptedBy: Option<string>, revokedAt: Option<int>, version: nat)

  datatype Tables = Tables(version: nat, memberships: map<string, Membership>, invitations: map<string, Invitation>)

  datatype Operation =
    | Invite(expectedVersion: nat, id: string, emailHash: string, tokenHash: string, role: Role, expiresAt: int)
    | Revoke(id: string, expectedVersion: nat, at: int)
    | ChangeRole(id: string, role: Role, expectedVersion: nat)
    | Accept(tokenHash: string, emailHash: string, expectedVersion: nat, membershipId: string, authUser: string, at: int)
    | Deactivate(ids: set<string>)

  lemma AssignableRoles(role: Role)
    ensures role in ASSIGNABLE <==> role !in {Owner, SupportAgent, PlatformAdmin}
  {
  }

  predicate Open(i: Invitation) {
    i.acceptedAt.None? && i.revokedAt.None?
  }

  function Created(membershipId: string, authUser: string): Tables {
    Tables(1, map[membershipId := Membership(Owner, authUser, true, 1)], map[])
  }

  function InviteRows(t: Tables, o: Operation): Option<Tables>
    requires o.Invite?
  {
    if o.role !in ASSIGNABLE || t.version != o.expectedVersion then None
    else if o.id in t.invitations
            || (exists i :: i in t.invitations && t.invitations[i].tokenHash == o.tokenHash)
            || (exists i :: i in t.invitations && Open(t.invitations[i]) && t.invitations[i].emailHash == o.emailHash)
    then None
    else Some(t.(version := t.version + 1,
                 invitations := t.invitations[o.id := Invitation(o.emailHash, o.tokenHash, o.role, o.expiresAt,
                                                                 None, None, None, 1)]))
  }

  function RevokeRows(t: Tables, o: Operation): Option<Tables>
    requires o.Revoke?
  {
    if o.id !in t.invitations || t.invitations[o.id].version != o.expectedVersion || !Open(t.invitations[o.id]) then None
    else
      var i := t.invitations[o.id];
      Some(t.(version := t.version + 1,
              invitations := t.invitations[o.id := i.(revokedAt := Some(o.at), version := i.version + 1)]))
  }

  function ChangeRoleRows(t: Tables, o: Operation): Option<Tables>
    requires o.ChangeRole?
  {
    if o.role !in ASSIGNABLE || o.id !in t.memberships then None
    else
      var m := t.memberships[o.id];
      if m.version != o.expectedVersion || !m.active || m.role == Owner then None
      else Some(t.(version := t.version + 1,
                   memberships := t.memberships[o.id := m.(role := o.role, version := m.version + 1)]))
  }

  predicate Acceptable(i: Invitation, o: Operation)
    requires o.Accept?
  {
    i.tokenHash == o.tokenHash && i.emailHash == o.emailHash && Open(i) && i.expiresAt > o.at
  }

  /** Tokens are unique, so at most one invitation answers to the token. */
  predicate AcceptsWith(t: Tables, o: Operation, id: string)
    requires o.Accept?
  {
    && id in t.invitations && Acceptable(t.invitations[id], o)
    && t.invitations[id].version == o.expectedVersion
    && o.membershipId !in t.memberships
    && (forall m :: m in t.memberships ==> t.memberships[m].authUser != o.authUser)
  }

  /** By its fields: addressed to that address, unused, not revoked, not expired, and as it was read. */
  predicate CanBeTaken(i: Invitation, tokenHash: string, emailHash: string, at: int, expectedVersion: nat) {
    && i.tokenHash == tokenHash && i.emailHash == emailHash && at < i.expiresAt
    && i.acceptedAt == None && i.revokedAt == None && i.version == expectedVersion
  }

  function AcceptRows(t: Tables, o: Operation, id: string): Tables
    requires o.Accept? && id in t.invitations
  {
    var i := t.invitations[id];
    Tables(t.version + 1,
           t.memberships[o.membershipId := Membership(i.role, o.authUser, true, 1)],
           t.invitations[id := i.(acceptedAt := Some(o.at), acceptedBy := Some(o.authUser), version := i.version + 1)])
  }

  /** What a completed privacy deletion does to its memberships. */
  function DeactivateRows(t: Tables, o: Operation): Tables
    requires o.Deactivate?
  {
    t.(memberships := map m | m in t.memberships ::
         if m in o.ids && t.memberships[m].active
         then t.memberships[m].(active := false, version := t.memberships[m].version + 1) else t.memberships[m])
  }

  // ----- the counts and the invariant -----

  function AcceptedIds(t: Tables): set<string> {
    set i | i in t.invitations && t.invitations[i].acceptedAt.Some?
  }

  function OwnerIds(t: Tables): set<string> {
    set m | m in t.memberships && t.memberships[m].role == Owner
  }

  /** The unique index on the token hash. */
  predicate UniqueTokens(t: Tables) {
    forall i, j :: i in t.invitations && j in t.invitations && i != j ==>
      t.invitations[i].tokenHash != t.invitations[j].tokenHash
  }

  /** The rules of the invitations, one by one and against each other. */
  predicate InvitationsSound(t: Tables) {
    && (forall i :: i in t.invitations ==>
          && t.invitations[i].role in ASSIGNABLE
          && (t.invitations[i].acceptedAt.None? || t.invitations[i].revokedAt.None?)
          && (t.invitations[i].acceptedAt.Some? <==> t.invitations[i].acceptedBy.Some?))
    && UniqueTokens(t)
    && (forall i, j :: i in t.invitations && j in t.invitations && i != j ==>
          !(Open(t.invitations[i]) && Open(t.invitations[j])
            && t.invitations[i].emailHash == t.invitations[j].emailHash))
  }

  /** `operations` counts the committed invitations, revocations, role changes and acceptances. */
  predicate Sound(t: Tables, owner: string, operations: nat) {
    && OwnerIds(t) == {owner}
    && |t.memberships| == 1 + |AcceptedIds(t)|
    && t.version == 1 + operations
    && InvitationsSound(t)
    && (forall m, n :: m in t.memberships && n in t.memberships && m != n ==>
          t.memberships[m].authUser != t.memberships[n].authUser)
  }

  lemma InviteIsSound(t: Tables, o: Operation, owner: string, operations: nat)
    requires o.Invite? && Sound(t, owner, operations) && InviteRows(t, o).Some?
    ensures Sound(InviteRows(t, o).value, owner, operations + 1)
  {
    var u := InviteRows(t, o).value;
    assert OwnerIds(u) == OwnerIds(t);
    assert AcceptedIds(u) == AcceptedIds(t);
  }

  lemma RevokeIsSound(t: Tables, o: Operation, owner: string, operations: nat)
    requires o.Revoke? && Sound(t, owner, operations) && RevokeRows(t, o).Some?
    ensures Sound(RevokeRows(t, o).value, owner, operations + 1)
  {
    var u := RevokeRows(t, o).value;
    assert OwnerIds(u) == OwnerIds(t);
    assert AcceptedIds(u) == AcceptedIds(t);
  }

  lemma ChangeRoleIsSound(t: Tables, o: Operation, owner: string, operations: nat)
    requires o.ChangeRole? && Sound(t, owner, operations) && ChangeRoleRows(t, o).Some?
    ensures Sound(ChangeRoleRows(t, o).value, owner, operations + 1)
  {
    var u := ChangeRoleRows(t, o).value;
    assert OwnerIds(u) == OwnerIds(t);
    assert AcceptedIds(u) == AcceptedIds(t);
    assert u.memberships.Keys == t.memberships.Keys;
  }

  lemma CreatedIsSound(membershipId: string, authUser: string)
    ensures Sound(Created(membershipId, authUser), membershipId, 0)
  {
    assert OwnerIds(Created(membershipId, authUser)) == {membershipId};
  }

  lemma AcceptKeepsOwner(t: Tables, o: Operation, id: string)
    requires o.Accept? && AcceptsWith(t, o, id) && t.invitations[id].role in ASSIGNABLE
    ensures OwnerIds(AcceptRows(t, o, id)) == OwnerIds(t)
  {
  }

  lemma AcceptCounts(t: Tables, o: Operation, id: string)
    requires o.Accept? && AcceptsWith(t, o, id)
    ensures var u := AcceptRows(t, o, id);
      |u.memberships| == |t.memberships| + 1 && |AcceptedIds(u)| == |AcceptedIds(t)| + 1
  {
    var u := AcceptRows(t, o, id);
    assert AcceptedIds(u) == AcceptedIds(t) + {id};
    assert u.memberships.Keys == t.memberships.Keys + {o.membershipId};
    assert |u.memberships| == |u.memberships.Keys| && |t.memberships| == |t.memberships.Keys|;
  }

  lemma AcceptKeepsInvitations(t: Tables, o: Operation, id: string)
    requires o.Accept? && AcceptsWith(t, o, id) && InvitationsSound(t)
    ensures InvitationsSound(AcceptRows(t, o, id))
  {
  }

  lemma AcceptIsSound(t: Tables, o: Operation, id: string, owner: string, operations: nat)
    requires o.Accept? && Sound(t, owner, operations) && AcceptsWith(t, o, id)
    ensures Sound(AcceptRows(t, o, id), owner, operations + 1)
  {
    AcceptKeepsOwner(t, o, id);
    AcceptCounts(t, o, id);
    AcceptKeepsInvitations(t, o, id);
  }

  /** Exactly the named memberships end, with their roles and accounts kept. */
  lemma DeactivationEnds(t: Tables, o: Operation)
    requires o.Deactivate?
    ensures var u := DeactivateRows(t, o);
      && u.memberships.Keys == t.memberships.Keys && u.invitations == t.invitations && u.version == t.version
      && (forall m :: m in t.memberships ==>
            && u.memberships[m].active == (t.memberships[m].active && m !in o.ids)
            && u.memberships[m].role == t.memberships[m].role && u.memberships[m].authUser == t.memberships[m].authUser
            && u.memberships[m].version
               == t.memberships[m].version + (if m in o.ids && t.memberships[m].active then 1 else 0))
  {
  }

  lemma DeactivateIsSound(t: Tables, o: Operation, owner: string, operations: nat)
    requires o.Deactivate? && Sound(t, owner, operations)
    ensures Sound(DeactivateRows(t, o), owner, operations)
  {
    var u := DeactivateRows(t, o);
    assert OwnerIds(u) == OwnerIds(t);
    assert AcceptedIds(u) == AcceptedIds(t);
    assert u.memberships.Keys == t.memberships.Keys;
    assert |u.memberships| == |u.memberships.Keys| && |t.memberships| == |t.memberships.Keys|;
  }

  /** What an acceptance leaves, by its fields: one member more, as invited, and the invitation used up. */
  predicate JoinsAsInvited(before: Tables, after: Tables, o: Operation)
    requires o.Accept?
  {
    && o.membershipId !in before.memberships && o.membershipId in after.memberships
    && after.memberships.Keys == before.memberships.Keys + {o.membershipId}
    && (forall m :: m in before.memberships ==> after.memberships[m] == before.memberships[m])
    && after.memberships[o.membershipId].active && after.memberships[o.membershipId].authUser == o.authUser
    && after.memberships[o.membershipId].version == 1 && after.version == before.version + 1
    && after.invitations.Keys == before.invitations.Keys
    && (exists id :: id in before.invitations && before.invitations[id].tokenHash == o.tokenHash)
    && (forall id :: id in before.invitations ==>
          if before.invitations[id].tokenHash == o.tokenHash
          then IsUsed(before.invitations[id], after.invitations[id], after.memberships[o.membershipId].role, o)
          else after.invitations[id] == before.invitations[id])
  }

  predicate IsUsed(before: Invitation, after: Invitation, role: Role, o: Operation)
    requires o.Accept?
  {
    && before.emailHash == o.emailHash && o.at < before.expiresAt
    && before.acceptedAt == None && before.revokedAt == None
    && role == before.role
    && after == before.(acceptedAt := Some(o.at), acceptedBy := Some(o.authUser), version := o.expectedVersion + 1)
  }

  /** Somebody may join: an invitation of that token can be taken, and neither id nor account is in use. */
  predicate MayJoin(t: Tables, o: Operation)
    requires o.Accept?
  {
    && (exists id :: id in t.invitations
                     && CanBeTaken(t.invitations[id], o.tokenHash, o.emailHash, o.at, o.expectedVersion))
    && o.membershipId !in t.memberships
    && (forall m :: m in t.memberships ==> t.memberships[m].authUser != o.authUser)
  }

  predicate SomeInvitationAccepts(t: Tables, o: Operation)
    requires o.Accept?
  {
    exists id :: id in t.invitations && AcceptsWith(t, o, id)
  }

  lemma AcceptedExactlyWhenMayJoin(t: Tables, o: Operation)
    requires o.Accept?
    ensures SomeInvitationAccepts(t, o) <==> MayJoin(t, o)
  {
    if SomeInvitationAccepts(t, o) {
      var id :| id in t.invitations && AcceptsWith(t, o, id);
      assert CanBeTaken(t.invitations[id], o.tokenHash, o.emailHash, o.at, o.expectedVersion);
    }
    if MayJoin(t, o) {
      var id :| id in t.invitations && CanBeTaken(t.invitations[id], o.tokenHash, o.emailHash, o.at, o.expectedVersion);
      assert AcceptsWith(t, o, id);
    }
  }

  lemma OnlyItsInvitationAccepts(t: Tables, o: Operation, id: string)
    requires o.Accept? && UniqueTokens(t) && id in t.invitations && t.invitations[id].tokenHash == o.tokenHash
    ensures SomeInvitationAccepts(t, o) <==> AcceptsWith(t, o, id)
  {
  }

  lemma AcceptJoinsAsInvited(t: Tables, o: Operation, id: string)
    requires o.Accept? && UniqueTokens(t) && AcceptsWith(t, o, id)
    ensures JoinsAsInvited(t, AcceptRows(t, o, id), o)
  {
  }

  // ----- the transactions, statement by statement -----

  class HouseholdRepository {
    var version: nat
    var memberships: map<string, Membership>
    var invitations: map<string, Invitation>

    function Contents(): Tables
      reads this
    {
      Tables(version, memberships, invitations)
    }

    /** A household starts sound, with its creator as the one active owner. */
    constructor CreateHouseholdForAccount(membershipId: string, authUser: string)
      ensures Sound(Contents(), membershipId, 0)
      ensures memberships.Keys == {membershipId} && memberships[membershipId].authUser == authUser
      ensures memberships[membershipId].active && invitations == map[]
      ensures Contents() == Created(membershipId, authUser)
    {
      version := 1;
      memberships := map[membershipId := Membership(Owner, authUser, true, 1)];
      invitations := map[];
      new;
      CreatedIsSound(membershipId, authUser);
    }

    /** An invitation is made as asked, for a role that can be assigned, beside no open one for the address. */
    method CreateMembershipInvitation(o: Operation) returns (committed: bool)
      requires o.Invite?
      modifies this
      ensures committed <==>
        && o.role !in {Owner, SupportAgent, PlatformAdmin} && old(version) == o.expectedVersion
        && o.id !in old(invitations)
        && (forall i :: i in old(invitations) ==> old(invitations)[i].tokenHash != o.tokenHash)
        && (forall i :: i in old(invitations) && old(invitations)[i].emailHash == o.emailHash ==>
              old(invitations)[i].acceptedAt.Some? || old(invitations)[i].revokedAt.Some?)
      ensures committed ==>
        && invitations.Keys == old(invitations).Keys + {o.id}
        && (forall i :: i in old(invitations) ==> invitations[i] == old(invitations)[i])
        && invitations[o.id].emailHash == o.emailHash && invitations[o.id].tokenHash == o.tokenHash
        && invitations[o.id].role == o.role && invitations[o.id].expiresAt == o.expiresAt
        && invitations[o.id].acceptedAt.None? && invitations[o.id].revokedAt.None?
        && invitations[o.id].version == 1 && version == old(version) + 1
      ensures memberships == old(memberships)
      ensures committed == InviteRows(old(Contents()), o).Some?
      ensures Contents() == if committed then InviteRows(old(Contents()), o).value else old(Contents())
    {
      AssignableRoles(o.role);
      if o.role !in ASSIGNABLE {
        return false;
      }
      if version != o.expectedVersion {
        return false;
      }
      version := version + 1;
      if o.id in invitations || (exists i :: i in invitations && invitations[i].tokenHash == o.tokenHash)
         || (exists i :: i in invitations && Open(invitations[i]) && invitations[i].emailHash == o.emailHash) {
        version := version - 1;
        return false;
      }
      invitations := invitations[o.id := Invitation(o.emailHash, o.tokenHash, o.role, o.expiresAt, None, None, None, 1)];
      committed := true;
    }

    /** Only an open invitation can be revoked, and then it can never be accepted; no membership changes. */
    method RevokeMembershipInvitation(o: Operation) returns (committed: bool)
      requires o.Revoke?
      modifies this
      ensures committed <==>
        && o.id in old(invitations) && old(invitations)[o.id].version == o.expectedVersion
        && old(invitations)[o.id].acceptedAt.None? && old(invitations)[o.id].revokedAt.None?
      ensures committed ==>
        && o.id in invitations && invitations[o.id].revokedAt == Some(o.at)
        && invitations[o.id].version == o.expectedVersion + 1 && version == old(version) + 1
        && forall accept: Operation :: accept.Accept? ==> !AcceptsWith(Contents(), accept, o.id)
      ensures memberships == old(memberships)
      ensures forall other :: other in old(invitations) && other != o.id ==>
        other in invitations && invitations[other] == old(invitations)[other]
      ensures committed == RevokeRows(old(Contents()), o).Some?
      ensures Contents() == if committed then RevokeRows(old(Contents()), o).value else old(Contents())
    {
      if !(o.id in invitations && invitations[o.id].version == o.expectedVersion && Open(invitations[o.id])) {
        return false;
      }
      var i := invitations[o.id];
      invitations := invitations[o.id := i.(revokedAt := Some(o.at), version := i.version + 1)];
      version := version + 1;
      committed := true;
    }

    /** Nobody becomes or stops being the owner by a change of role, and nobody is let in or out. */
    method UpdateMembershipRole(o: Operation) returns (committed: bool)
      requires o.ChangeRole?
      modifies this
      ensures OwnerIds(Contents()) == OwnerIds(old(Contents()))
      ensures invitations == old(invitations) && memberships.Keys == old(memberships).Keys
      ensures forall m :: m in memberships ==>
        && memberships[m].active == old(memberships)[m].active && memberships[m].authUser == old(memberships)[m].authUser
        && (m != o.id || !committed ==> memberships[m] == old(memberships)[m])
      ensures committed <==>
        && o.role !in {Owner, SupportAgent, PlatformAdmin} && o.id in old(memberships)
        && old(memberships)[o.id].active && !old(memberships)[o.id].role.Owner?
        && old(memberships)[o.id].version == o.expectedVersion
      ensures committed ==>
        && o.id in memberships && memberships[o.id].role == o.role
        && memberships[o.id].version == o.expectedVersion + 1 && version == old(version) + 1
      ensures committed == ChangeRoleRows(old(Contents()), o).Some?
      ensures Contents() == if committed then ChangeRoleRows(old(Contents()), o).value else old(Contents())
    {
      AssignableRoles(o.role);
      if o.role !in ASSIGNABLE || o.id !in memberships {
        return false;
      }
      var m := memberships[o.id];
      if !(m.version == o.expectedVersion && m.active && m.role != Owner) {
        return false;
      }
      memberships := memberships[o.id := m.(role := o.role, version := m.version + 1)];
      version := version + 1;
      committed := true;
    }

    /** The three writes of an acceptance. */
    method Admit(id: string, o: Operation)
      requires o.Accept? && UniqueTokens(Contents()) && AcceptsWith(Contents(), o, id)
      modifies this
      ensures JoinsAsInvited(old(Contents()), Contents(), o)
      ensures Contents() == AcceptRows(old(Contents()), o, id)
    {
      AcceptJoinsAsInvited(Contents(), o, id);
      var i := invitations[id];
      memberships := memberships[o.membershipId := Membership(i.role, o.authUser, true, 1)];
      invitations := invitations[id := i.(acceptedAt := Some(o.at), acceptedBy := Some(o.authUser),
                                          version := i.version + 1)];
      version := version + 1;
    }

    /**
     The new member is who presented the token, with the role of the invitation it belongs
     to, which was addressed to them, unused and not yet expired.
     */
    method AcceptMembershipInvitation(o: Operation) returns (committed: bool)
      requires o.Accept? && UniqueTokens(Contents())
      modifies this
      ensures committed <==> MayJoin(old(Contents()), o)
      ensures committed ==> JoinsAsInvited(old(Contents()), Contents(), o)
      ensures committed <==> SomeInvitationAccepts(old(Contents()), o)
      ensures committed ==> exists id :: id in old(Contents()).invitations
                                         && AcceptsWith(old(Contents()), o, id)
                                         && Contents() == AcceptRows(old(Contents()), o, id)
      ensures !committed ==> Contents() == old(Contents())
    {
      ghost var before := Contents();
      AcceptedExactlyWhenMayJoin(before, o);
      if !exists id :: id in invitations && invitations[id].tokenHash == o.tokenHash {
        return false;
      }
      var id :| id in invitations && invitations[id].tokenHash == o.tokenHash;
      var i := invitations[id];
      OnlyItsInvitationAccepts(before, o, id);
      if i.emailHash != o.emailHash || i.acceptedAt.Some? || i.revokedAt.Some? || i.expiresAt <= o.at {
        return false;
      }
      if i.version != o.expectedVersion {
        return false;
      }
      if o.membershipId in memberships || exists m :: m in memberships && memberships[m].authUser == o.authUser {
        return false;
      }
      Admit(id, o);
      committed := true;
    }
  }

  // ----- every run -----

  datatype State = State(tables: Tables, operations: nat)

  ghost function Step(s: State, o: Operation): State {
    match o
    case Invite(_, _, _, _, _, _) =>
      if InviteRows(s.tables, o).Some? then State(InviteRows(s.tables, o).value, s.operations + 1) else s
    case Revoke(_, _, _) =>
      if RevokeRows(s.tables, o).Some? then State(RevokeRows(s.tables, o).value, s.operations + 1) else s
    case ChangeRole(_, _, _) =>
      if ChangeRoleRows(s.tables, o).Some? then State(ChangeRoleRows(s.tables, o).value, s.operations + 1) else s
    case Accept(_, _, _, _, _, _) =>
      if id :| id in s.tables.invitations && AcceptsWith(s.tables, o, id)
      then State(AcceptRows(s.tables, o, id), s.operations + 1) else s
    case Deactivate(_) => s.(tables := DeactivateRows(s.tables, o))
  }

  ghost function Run(start: State, operations: seq<Operation>): State {
    if operations == [] then start
    else Step(Run(start, operations[..|operations| - 1]), operations[|operations| - 1])
  }

  /**
   Over all runs: exactly one owner, as many memberships as the owner and the accepted
   invitations, no invitation both accepted and revoked, and a household version that
   counts the committed operations.
   */
  lemma {:induction false} EveryRunIsSound(membershipId: string, authUser: string, operations: seq<Operation>)
    ensures var s := Run(State(Created(membershipId, authUser), 0), operations);
      Sound(s.tables, membershipId, s.operations)
    decreases |operations|
  {
    var start := State(Created(membershipId, authUser), 0);
    if operations == [] {
      assert OwnerIds(start.tables) == {membershipId};
    } else {
      var n := |operations| - 1;
      EveryRunIsSound(membershipId, authUser, operations[..n]);
      var s, o := Run(start, operations[..n]), operations[n];
      match o
      case Invite(_, _, _, _, _, _) =>
        if InviteRows(s.tables, o).Some? { InviteIsSound(s.tables, o, membershipId, s.operations); }
      case Revoke(_, _, _) =>
        if RevokeRows(s.tables, o).Some? { RevokeIsSound(s.tables, o, membershipId, s.operations); }
      case ChangeRole(_, _, _) =>
        if ChangeRoleRows(s.tables, o).Some? { ChangeRoleIsSound(s.tables, o, membershipId, s.operations); }
      case Accept(_, _, _, _, _, _) =>
        forall id | id in s.tables.invitations && AcceptsWith(s.tables, o, id)
          ensures Sound(AcceptRows(s.tables, o, id), membershipId, s.operations + 1)
        {
          AcceptIsSound(s.tables, o, id, membershipId, s.operations);
        }
      case Deactivate(_) => DeactivateIsSound(s.tables, o, membershipId, s.operations);
    }
  }

  // ----- where a member's role comes from -----

  predicate Commits(before: State, o: Operation) {
    !o.Deactivate? && (
      match o
      case Invite(_, _, _, _, _, _) => InviteRows(before.tables, o).Some?
      case Revoke(_, _, _) => RevokeRows(before.tables, o).Some?
      case ChangeRole(_, _, _) => ChangeRoleRows(before.tables, o).Some?
      case Accept(_, _, _, _, _, _) => exists id :: id in before.tables.invitations && AcceptsWith(before.tables, o, id)
      case Deactivate(_) => false)
  }

  /** The last committed invitation with that token. */
  ghost function InvitedAs(start: State, operations: seq<Operation>, tokenHash: string): (invite: Option<Operation>)
    ensures invite.Some? ==> invite.value.Invite? && invite.value.tokenHash == tokenHash
  {
    if operations == [] then None
    else
      var before, o := operations[..|operations| - 1], operations[|operations| - 1];
      if o.Invite? && o.tokenHash == tokenHash && Commits(Run(start, before), o) then Some(o)
      else InvitedAs(start, before, tokenHash)
  }

  /** The role a member was last given: by a committed change, or by the invitation they accepted. */
  ghost function GivenRole(start: State, operations: seq<Operation>, membershipId: string): Option<Role> {
    if operations == [] then None
    else
      var before, o := operations[..|operations| - 1], operations[|operations| - 1];
      if o.ChangeRole? && o.id == membershipId && Commits(Run(start, before), o) then Some(o.role)
      else if o.Accept? && o.membershipId == membershipId && Commits(Run(start, before), o) then
        (match InvitedAs(start, before, o.tokenHash) case Some(invite) => Some(invite.role) case None => None)
      else GivenRole(start, before, membershipId)
  }

  /** Every invitation is as its committed operation made it, until it is accepted or revoked. */
  ghost predicate InvitationsTraced(start: State, operations: seq<Operation>) {
    var t := Run(start, operations).tables;
    forall i :: i in t.invitations ==>
      var invite := InvitedAs(start, operations, t.invitations[i].tokenHash);
      invite.Some? && t.invitations[i].role == invite.value.role
      && t.invitations[i].emailHash == invite.value.emailHash && t.invitations[i].expiresAt == invite.value.expiresAt
  }

  ghost predicate RolesTraced(start: State, operations: seq<Operation>, owner: string) {
    var t := Run(start, operations).tables;
    forall m :: m in t.memberships && m != owner ==> GivenRole(start, operations, m) == Some(t.memberships[m].role)
  }

  lemma InviteKeepsTraces(start: State, operations: seq<Operation>, owner: string)
    requires operations != [] && operations[|operations| - 1].Invite?
    requires InvitationsTraced(start, operations[..|operations| - 1])
    requires RolesTraced(start, operations[..|operations| - 1], owner)
    ensures InvitationsTraced(start, operations) && RolesTraced(start, operations, owner)
  {
  }

  lemma RevokeKeepsTraces(start: State, operations: seq<Operation>, owner: string)
    requires operations != [] && (operations[|operations| - 1].Revoke? || operations[|operations| - 1].Deactivate?)
    requires InvitationsTraced(start, operations[..|operations| - 1])
    requires RolesTraced(start, operations[..|operations| - 1], owner)
    ensures InvitationsTraced(start, operations) && RolesTraced(start, operations, owner)
  {
  }

  lemma ChangeKeepsTraces(start: State, operations: seq<Operation>, owner: string)
    requires operations != [] && operations[|operations| - 1].ChangeRole?
    requires InvitationsTraced(start, operations[..|operations| - 1])
    requires RolesTraced(start, operations[..|operations| - 1], owner)
    ensures InvitationsTraced(start, operations) && RolesTraced(start, operations, owner)
  {
  }

  lemma AcceptKeepsTraces(start: State, operations: seq<Operation>, owner: string)
    requires operations != [] && operations[|operations| - 1].Accept?
    requires InvitationsTraced(start, operations[..|operations| - 1])
    requires RolesTraced(start, operations[..|operations| - 1], owner)
    ensures InvitationsTraced(start, operations) && RolesTraced(start, operations, owner)
  {
    var s, o := Run(start, operations[..|operations| - 1]), operations[|operations| - 1];
    if Commits(s, o) {
      var id :| id in s.tables.invitations && AcceptsWith(s.tables, o, id)
                && Run(start, operations).tables == AcceptRows(s.tables, o, id);
    }
  }

  /**
   In every run each member but the owner has the role of the invitation they accepted, or of
   the last change of their role that committed; and each invitation is as it was asked for.
   */
  lemma {:induction false} RolesComeFromInvitationsAndChanges(membershipId: string, authUser: string,
                                                              operations: seq<Operation>)
    ensures var start := State(Created(membershipId, authUser), 0);
      InvitationsTraced(start, operations) && RolesTraced(start, operations, membershipId)
    decreases |operations|
  {
    var start := State(Created(membershipId, authUser), 0);
    if operations != [] {
      var o := operations[|operations| - 1];
      RolesComeFromInvitationsAndChanges(membershipId, authUser, operations[..|operations| - 1]);
      if o.Invite? {
        InviteKeepsTraces(start, operations, membershipId);
      } else if o.ChangeRole? {
        ChangeKeepsTraces(start, operations, membershipId);
      } else if o.Accept? {
        AcceptKeepsTraces(start, operations, membershipId);
      } else {
        RevokeKeepsTraces(start, operations, membershipId);
      }
    }
  }
}

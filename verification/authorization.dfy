/**
 The access policy: `authorize`, `permits` and `isGrantActive`. Times are what `Date.parse`
 makes of a text, in milliseconds; `Invalid` is not a number and every comparison with it fails.
 */
module Authorization {
  import opened Prelude

  datatype Role = Owner | CoOwner | Editor | FamilyHelper | ProfessionalAdvisor | ReadOnlyViewer
                | EmergencyRecipient | SupportAgent | PlatformAdmin

  datatype Action = Read | Create | Update | Delete | Export | Approve

  datatype Category = Contacts | Advisers | Dependents | Pets | Assets | Liabilities | Insurance | Property
                    | EstateDocuments | MedicalSummary | DigitalAssetLocations | HouseholdInstructions
                    | FuneralPreferences

  datatype Time = Invalid | At(ms: int)

  datatype Grant = Grant(categories: set<Category>, actions: set<Action>, purpose: string, startsAt: Time,
                         expiresAt: Option<Time>, revoked: bool)

  datatype SupportApproval = SupportApproval(reasonCode: string, categories: set<Category>, startsAt: Time,
                                             expiresAt: Time, revoked: bool)

  datatype Identity = Identity(membershipId: nat, personId: nat, role: Role, grants: seq<Grant>,
                               sessionIssuedAt: Time, mfaVerifiedAt: Option<Time>,
                               supportApprovals: seq<SupportApproval>, emergencyReleaseCategories: set<Category>)

  datatype Decision = Allow | InvalidPurpose | SessionExpired | MfaRequired | PermissionDenied
                    | SupportApprovalRequired | EmergencyReleaseRequired

  const MINUTE_MS := 60_000
  const HOUR_MS := 3_600_000
  const REQUEST_PURPOSE := "vault.emergency-access.request"

  function RoleActions(role: Role): set<Action> {
    match role
    case Owner => {Read, Create, Update, Delete, Export, Approve}
    case CoOwner => {Read, Create, Update, Delete, Export, Approve}
    case Editor => {Read, Create, Update}
    case FamilyHelper => {Read, Create, Update}
    case ProfessionalAdvisor => {Read, Create, Update}
    case ReadOnlyViewer => {Read}
    case EmergencyRecipient => {Read}
    case SupportAgent => {Read}
    case PlatformAdmin => {}
  }

  predicate NotAfter(a: Time, b: Time) {
    a.At? && b.At? && a.ms <= b.ms
  }

  predicate After(a: Time, b: Time) {
    a.At? && b.At? && a.ms > b.ms
  }

  predicate IsGrantActive(grant: Grant, at: Time) {
    && !grant.revoked
    && NotAfter(grant.startsAt, at)
    && (grant.expiresAt.Some? ==> After(grant.expiresAt.value, at))
  }

  predicate GrantCovers(grant: Grant, purpose: string, category: Category, action: Action, at: Time) {
    grant.purpose == purpose && IsGrantActive(grant, at) && category in grant.categories && action in grant.actions
  }

  predicate Permits(role: Role, grants: seq<Grant>, purpose: string, category: Category, action: Action, at: Time) {
    && action in RoleActions(role)
    && (role.Owner? || role.CoOwner? || exists i :: 0 <= i < |grants| && GrantCovers(grants[i], purpose, category, action, at))
  }

  predicate IsWhiteSpace(c: char) {
    var n := c as int;
    || 9 <= n <= 13 || n == 32 || n == 0xA0 || n == 0x1680 || 0x2000 <= n <= 0x200A
    || n == 0x2028 || n == 0x2029 || n == 0x202F || n == 0x205F || n == 0x3000 || n == 0xFEFF
  }

  /** `!text.trim()`. */
  predicate IsBlank(text: string) {
    forall i :: 0 <= i < |text| ==> IsWhiteSpace(text[i])
  }

  predicate IsStaff(role: Role) {
    role.SupportAgent? || role.PlatformAdmin?
  }

  predicate NeedsMfa(role: Role) {
    role.Owner? || role.CoOwner? || IsStaff(role)
  }

  predicate SessionIsFresh(role: Role, issuedAt: Time, now: Time) {
    && NotAfter(issuedAt, now)
    && now.ms - issuedAt.ms <= (if IsStaff(role) then 15 * MINUTE_MS else 7 * 24 * HOUR_MS)
  }

  predicate MfaIsFresh(verifiedAt: Option<Time>, now: Time) {
    verifiedAt.Some? && NotAfter(verifiedAt.value, now) && now.ms - verifiedAt.value.ms <= 12 * HOUR_MS
  }

  predicate ApprovalCovers(approval: SupportApproval, category: Category, now: Time) {
    && !approval.revoked && !IsBlank(approval.reasonCode) && category in approval.categories
    && NotAfter(approval.startsAt, now) && After(approval.expiresAt, now)
    && approval.expiresAt.ms - approval.startsAt.ms <= 4 * HOUR_MS
  }

  function Authorize(who: Identity, category: Category, action: Action, purpose: string, now: Time): Decision {
    if IsBlank(purpose) then InvalidPurpose
    else if !SessionIsFresh(who.role, who.sessionIssuedAt, now) then SessionExpired
    else if NeedsMfa(who.role) && !MfaIsFresh(who.mfaVerifiedAt, now) then MfaRequired
    else if who.role.PlatformAdmin? then PermissionDenied
    else if who.role.SupportAgent?
            && !exists i :: 0 <= i < |who.supportApprovals| && ApprovalCovers(who.supportApprovals[i], category, now) then
      SupportApprovalRequired
    else if who.role.EmergencyRecipient? && purpose == REQUEST_PURPOSE && action.Create? then Allow
    else if who.role.EmergencyRecipient? && category !in who.emergencyReleaseCategories then EmergencyReleaseRequired
    else if Permits(who.role, who.grants, purpose, category, action, now) then Allow
    else PermissionDenied
  }

  /**
   An emergency recipient may do nothing but file a request and read; and may read exactly the
   released categories that a grant of the same purpose covers.
   */
  lemma RecipientIsAllowedExactlyWhen(who: Identity, category: Category, action: Action, purpose: string, now: Time)
    requires who.role.EmergencyRecipient?
    ensures Authorize(who, category, action, purpose, now) == Allow <==>
      && !IsBlank(purpose) && SessionIsFresh(who.role, who.sessionIssuedAt, now)
      && (|| (purpose == REQUEST_PURPOSE && action == Create)
          || (&& action == Read && category in who.emergencyReleaseCategories
              && exists i :: 0 <= i < |who.grants| && GrantCovers(who.grants[i], purpose, category, Read, now)))
  {
    assert RoleActions(EmergencyRecipient) == {Read};
  }

  /** Approving is for owners with a recent second factor. */
  lemma OnlyOwnersApprove(who: Identity, category: Category, purpose: string, now: Time)
    requires Authorize(who, category, Approve, purpose, now) == Allow
    ensures (who.role.Owner? || who.role.CoOwner?) && MfaIsFresh(who.mfaVerifiedAt, now)
  {
    assert Approve in RoleActions(who.role);
  }

  /** Staff get in only for minutes: an administrator never, an agent to read under a short approval. */
  lemma StaffNeedShortApproval(who: Identity, category: Category, action: Action, purpose: string, now: Time)
    requires IsStaff(who.role) && Authorize(who, category, action, purpose, now) == Allow
    ensures who.role.SupportAgent? && action == Read && now.At? && who.sessionIssuedAt.At?
    ensures now.ms - who.sessionIssuedAt.ms <= 15 * MINUTE_MS
    ensures exists i :: 0 <= i < |who.supportApprovals| && ApprovalCovers(who.supportApprovals[i], category, now)
                        && who.supportApprovals[i].expiresAt.ms - now.ms <= 4 * HOUR_MS
  {
    var i :| 0 <= i < |who.supportApprovals| && ApprovalCovers(who.supportApprovals[i], category, now);
    assert who.supportApprovals[i].expiresAt.ms - now.ms <= 4 * HOUR_MS;
    assert action in RoleActions(who.role);
  }

  // ----- every role, by the fields of its session, second factor, grants and approvals -----

  /** A session that began no later than now, and at most so many milliseconds ago. */
  predicate WithinAge(issuedAt: Time, now: Time, age: int) {
    issuedAt.At? && now.At? && 0 <= now.ms - issuedAt.ms <= age
  }

  /** The grant is for this purpose, category and action, has begun, has not ended and is not revoked. */
  predicate Grants(g: Grant, purpose: string, category: Category, action: Action, now: Time) {
    && g.purpose == purpose && category in g.categories && action in g.actions && !g.revoked
    && now.At? && g.startsAt.At? && g.startsAt.ms <= now.ms
    && (g.expiresAt == None || (g.expiresAt.value.At? && now.ms < g.expiresAt.value.ms))
  }

  predicate SomeGrant(who: Identity, purpose: string, category: Category, action: Action, now: Time) {
    exists i :: 0 <= i < |who.grants| && Grants(who.grants[i], purpose, category, action, now)
  }

  /** An approval with a reason, for the category, running now, and for at most four hours in all. */
  predicate Approves(a: SupportApproval, category: Category, now: Time) {
    && category in a.categories && !a.revoked && !IsBlank(a.reasonCode)
    && now.At? && a.startsAt.At? && a.expiresAt.At?
    && a.startsAt.ms <= now.ms < a.expiresAt.ms <= a.startsAt.ms + 14_400_000
  }

  predicate SomeApproval(who: Identity, category: Category, now: Time) {
    exists i :: 0 <= i < |who.supportApprovals| && Approves(who.supportApprovals[i], category, now)
  }

  const WEEK_MS := 604_800_000
  const QUARTER_HOUR_MS := 900_000
  const HALF_DAY_MS := 43_200_000

  lemma GrantsAreCovered(who: Identity, purpose: string, category: Category, action: Action, now: Time)
    ensures SomeGrant(who, purpose, category, action, now)
       <==> exists i :: 0 <= i < |who.grants| && GrantCovers(who.grants[i], purpose, category, action, now)
  {
    assert forall i :: 0 <= i < |who.grants| ==>
      (Grants(who.grants[i], purpose, category, action, now)
       <==> GrantCovers(who.grants[i], purpose, category, action, now));
  }

  lemma ApprovalsAreCovered(who: Identity, category: Category, now: Time)
    ensures SomeApproval(who, category, now)
       <==> exists i :: 0 <= i < |who.supportApprovals| && ApprovalCovers(who.supportApprovals[i], category, now)
  {
    assert forall i :: 0 <= i < |who.supportApprovals| ==>
      (Approves(who.supportApprovals[i], category, now) <==> ApprovalCovers(who.supportApprovals[i], category, now));
  }

  /** An owner may do anything with a purpose, a session of the last week and a second factor of the last half day. */
  lemma OwnerIsAllowedExactlyWhen(who: Identity, category: Category, action: Action, purpose: string, now: Time)
    requires who.role in {Owner, CoOwner}
    ensures Authorize(who, category, action, purpose, now)
         == if IsBlank(purpose) then InvalidPurpose
            else if !WithinAge(who.sessionIssuedAt, now, WEEK_MS) then SessionExpired
            else if who.mfaVerifiedAt.None? || !WithinAge(who.mfaVerifiedAt.value, now, HALF_DAY_MS) then MfaRequired
            else Allow
  {
  }

  /** Other members may read, and but for viewers create and update, what an active grant of the purpose names. */
  lemma MemberIsAllowedExactlyWhen(who: Identity, category: Category, action: Action, purpose: string, now: Time)
    requires who.role in {Editor, FamilyHelper, ProfessionalAdvisor, ReadOnlyViewer}
    ensures Authorize(who, category, action, purpose, now)
         == if IsBlank(purpose) then InvalidPurpose
            else if !WithinAge(who.sessionIssuedAt, now, WEEK_MS) then SessionExpired
            else if (action == Read || (action in {Create, Update} && !who.role.ReadOnlyViewer?))
                    && SomeGrant(who, purpose, category, action, now) then Allow
            else PermissionDenied
  {
    GrantsAreCovered(who, purpose, category, action, now);
  }

  /** A recipient may file a request, and read what was released to them and an active grant names. */
  lemma RecipientIsDecidedExactly(who: Identity, category: Category, action: Action, purpose: string, now: Time)
    requires who.role.EmergencyRecipient?
    ensures Authorize(who, category, action, purpose, now)
         == if IsBlank(purpose) then InvalidPurpose
            else if !WithinAge(who.sessionIssuedAt, now, WEEK_MS) then SessionExpired
            else if purpose == "vault.emergency-access.request" && action == Create then Allow
            else if category !in who.emergencyReleaseCategories then EmergencyReleaseRequired
            else if action == Read && SomeGrant(who, purpose, category, Read, now) then Allow
            else PermissionDenied
  {
    GrantsAreCovered(who, purpose, category, action, now);
  }

  /** An agent may read what an owner's short approval and an active grant name; an administrator may nothing. */
  lemma StaffIsAllowedExactlyWhen(who: Identity, category: Category, action: Action, purpose: string, now: Time)
    requires who.role in {SupportAgent, PlatformAdmin}
    ensures Authorize(who, category, action, purpose, now)
         == if IsBlank(purpose) then InvalidPurpose
            else if !WithinAge(who.sessionIssuedAt, now, QUARTER_HOUR_MS) then SessionExpired
            else if who.mfaVerifiedAt.None? || !WithinAge(who.mfaVerifiedAt.value, now, HALF_DAY_MS) then MfaRequired
            else if who.role.PlatformAdmin? then PermissionDenied
            else if !SomeApproval(who, category, now) then SupportApprovalRequired
            else if action == Read && SomeGrant(who, purpose, category, Read, now) then Allow
            else PermissionDenied
  {
    GrantsAreCovered(who, purpose, category, action, now);
    ApprovalsAreCovered(who, category, now);
  }

  /** Any printable character makes a purpose; spaces and line ends alone do not. */
  lemma PurposesHaveAVisibleCharacter(text: string)
    ensures (exists i :: 0 <= i < |text| && '!' <= text[i] <= '~') ==> !IsBlank(text)
    ensures (forall i :: 0 <= i < |text| ==> text[i] in {' ', '\t', '\n', '\r'}) ==> IsBlank(text)
  {
  }
}

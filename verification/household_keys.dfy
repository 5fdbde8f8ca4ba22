/**
 `getOrCreateActiveKey`: read without the lock, take the household's advisory lock, read
 again, and only then create. Any number of callers step through it at once and may be
 rolled back anywhere; the household still never has two active keys, and everybody who
 gets a key gets the same bytes.
 */
module HouseholdKeys {
  import opened Prelude
  import opened Envelope

  datatype Tenant = Tenant(organizationId: string, householdId: string, keyEncryptionKey: seq<Byte>)

  datatype ActiveKey = ActiveKey(keyVersion: int, plaintextKey: seq<Byte>)

  datatype Caller =
    | Idle
    | Reading              // before the first read
    | Missed               // the first read found nothing
    | Locked               // holds the advisory lock, before the second read
    | MissedLocked         // the second read found nothing
    | Inserted(row: WrappedKey, generated: seq<Byte>)

  datatype System = System(
    rows: seq<WrappedKey>,         // committed rows with status active
    lock: Option<nat>,
    callers: map<nat, Caller>,
    returned: seq<ActiveKey>)      // history: what callers were given

  datatype Action = Start(p: nat) | Read(p: nat) | Acquire(p: nat) | ReadAgain(p: nat)
                  | Insert(p: nat, generated: seq<Byte>, nonce: nat) | Commit(p: nat) | Rollback(p: nat)

  predicate ValidTenant(t: Tenant) {
    |t.keyEncryptionKey| == 32 && NoColon(t.organizationId) && NoColon(t.householdId)
  }

  function At(s: System, p: nat): Caller {
    if p in s.callers then s.callers[p] else Idle
  }

  function Move(s: System, p: nat, to: Caller): System {
    s.(callers := s.callers[p := to])
  }

  function Release(s: System, p: nat): System {
    Move(s.(lock := if s.lock == Some(p) then None else s.lock), p, Idle)
  }

  function Unwrap(t: Tenant, row: WrappedKey): Result<seq<Byte>> {
    UnwrapHouseholdKey(row, t.keyEncryptionKey, t.organizationId, t.householdId)
  }

  /** `order by key_version desc limit 1`; with at most one row there is nothing to order. */
  function Found(t: Tenant, s: System, p: nat): System
    requires s.rows != []
  {
    match Unwrap(t, s.rows[0])
    case Ok(bytes) => Release(s.(returned := s.returned + [ActiveKey(s.rows[0].envelope.keyVersion, bytes)]), p)
    case Err(_) => Release(s, p)
  }

  function Apply(t: Tenant, s: System, a: Action): System {
    match a
    case Start(p) => if At(s, p).Idle? then Move(s, p, Reading) else s
    case Read(p) =>
      if !At(s, p).Reading? then s else if s.rows != [] then Found(t, s, p) else Move(s, p, Missed)
    case Acquire(p) =>
      if At(s, p).Missed? && s.lock.None? then Move(s.(lock := Some(p)), p, Locked) else s
    case ReadAgain(p) =>
      if !At(s, p).Locked? then s else if s.rows != [] then Found(t, s, p) else Move(s, p, MissedLocked)
    case Insert(p, generated, nonce) =>
      if !At(s, p).MissedLocked? then s
      else (match WrapHouseholdKey(generated, t.keyEncryptionKey, t.organizationId, t.householdId, 1, nonce)
            case Ok(row) => Move(s, p, Inserted(row, generated))
            case Err(_) => Release(s, p))
    case Commit(p) =>
      (match At(s, p)
       case Inserted(row, generated) =>
         Release(s.(rows := s.rows + [row], returned := s.returned + [ActiveKey(1, generated)]), p)
       case _ => s)
    case Rollback(p) => Release(s, p)
  }

  function Execute(t: Tenant, actions: seq<Action>): System {
    if actions == [] then System([], None, map[], [])
    else Apply(t, Execute(t, actions[..|actions| - 1]), actions[|actions| - 1])
  }

  predicate CallerOk(t: Tenant, s: System, p: nat)
    requires p in s.callers
  {
    var c := s.callers[p];
    && (c.Locked? || c.MissedLocked? || c.Inserted? ==> s.lock == Some(p))
    && (c.MissedLocked? || c.Inserted? ==> s.rows == [])
    && (c.Inserted? ==> Unwrap(t, c.row) == Ok(c.generated) && c.row.envelope.keyVersion == 1)
  }

  predicate Invariant(t: Tenant, s: System) {
    && |s.rows| <= 1
    && (forall p :: p in s.callers ==> CallerOk(t, s, p))
    && (s.rows == [] ==> s.returned == [])
    && (s.rows != [] ==> Unwrap(t, s.rows[0]).Ok?)
    && (forall i :: 0 <= i < |s.returned| ==>
          s.rows != [] && Unwrap(t, s.rows[0]) == Ok(s.returned[i].plaintextKey)
          && s.rows[0].envelope.keyVersion == s.returned[i].keyVersion)
  }

  lemma StepKeepsInvariant(t: Tenant, s: System, a: Action)
    requires ValidTenant(t) && Invariant(t, s)
    ensures Invariant(t, Apply(t, s, a))
  {
    var u := Apply(t, s, a);
    if a.p in s.callers {
      assert CallerOk(t, s, a.p);
    }
    if a.Insert? {
      UnwrapUndoesWrap(a.generated, t.keyEncryptionKey, t.organizationId, t.householdId, 1, a.nonce,
                       t.organizationId, t.householdId);
    }
    forall p | p in u.callers ensures CallerOk(t, u, p) {
      if p != a.p {
        assert CallerOk(t, s, p);
      }
    }
  }

  lemma {:induction false} RunsKeepInvariant(t: Tenant, actions: seq<Action>)
    requires ValidTenant(t)
    ensures Invariant(t, Execute(t, actions))
    decreases |actions|
  {
    if actions != [] {
      RunsKeepInvariant(t, actions[..|actions| - 1]);
      StepKeepsInvariant(t, Execute(t, actions[..|actions| - 1]), actions[|actions| - 1]);
    }
  }

  /**
   Never two active keys, and one key for every caller that succeeds. A caller about to
   commit its insert is never stopped by the unique index on active keys.
   */
  lemma {:induction false} OneActiveKeyForAll(t: Tenant, actions: seq<Action>)
    requires ValidTenant(t)
    ensures var s := Execute(t, actions);
      && |s.rows| <= 1
      && (forall i, j :: 0 <= i < |s.returned| && 0 <= j < |s.returned| ==> s.returned[i] == s.returned[j])
      && (forall p :: p in s.callers && s.callers[p].Inserted? ==> s.rows == [])
      && (s.returned != [] ==> |s.rows| == 1 && Unwrap(t, s.rows[0]) == Ok(s.returned[0].plaintextKey))
  {
    RunsKeepInvariant(t, actions);
    forall p | p in Execute(t, actions).callers && Execute(t, actions).callers[p].Inserted?
      ensures Execute(t, actions).rows == []
    {
      assert CallerOk(t, Execute(t, actions), p);
    }
  }

  /** All the statements of one call; those after a successful read do nothing. */
  function AfterCall(t: Tenant, s: System, p: nat, generated: seq<Byte>, nonce: nat): System {
    var read := Apply(t, Apply(t, s, Start(p)), Read(p));
    var readAgain := Apply(t, Apply(t, read, Acquire(p)), ReadAgain(p));
    Apply(t, Apply(t, readAgain, Insert(p, generated, nonce)), Commit(p))
  }

  /** Whatever happened before, a caller that is left alone while the lock is free gets the key. */
  lemma {:induction false} CallerLeftAloneSucceeds(t: Tenant, before: seq<Action>, p: nat, generated: seq<Byte>, nonce: nat)
    requires ValidTenant(t) && At(Execute(t, before), p).Idle? && Execute(t, before).lock.None?
    ensures var s := Execute(t, before);
      var u := AfterCall(t, s, p, generated, nonce);
      && At(u, p).Idle? && u.lock.None?
      && |u.returned| == |s.returned| + 1 && |u.rows| == 1
      && u.returned[|s.returned|]
         == (if s.rows == [] then ActiveKey(1, generated)
             else ActiveKey(s.rows[0].envelope.keyVersion, Unwrap(t, s.rows[0]).value))
  {
    RunsKeepInvariant(t, before);
    var s := Execute(t, before);
    var read := Apply(t, Apply(t, s, Start(p)), Read(p));
    if s.rows == [] {
      assert At(read, p).Missed?;
      UnwrapUndoesWrap(generated, t.keyEncryptionKey, t.organizationId, t.householdId, 1, nonce,
                       t.organizationId, t.householdId);
      var readAgain := Apply(t, Apply(t, read, Acquire(p)), ReadAgain(p));
      assert At(readAgain, p).MissedLocked? && readAgain.lock == Some(p) && readAgain.rows == [];
      assert At(Apply(t, readAgain, Insert(p, generated, nonce)), p).Inserted?;
    } else {
      assert At(read, p).Idle?;
    }
  }

  // ----- the statements, one caller -----

  class HouseholdKeyStore {
    const tenant: Tenant
    var rows: seq<WrappedKey>

    ghost predicate Valid()
      reads this
    {
      ValidTenant(tenant) && |rows| <= 1 && (rows != [] ==> Unwrap(tenant, rows[0]).Ok?)
    }

    constructor (tenant: Tenant)
      requires ValidTenant(tenant)
      ensures Valid() && rows == [] && this.tenant == tenant
    {
      this.tenant := tenant;
      rows := [];
    }

    /** `betweenReads` is what another caller committed after the first read missed. */
    method GetOrCreateActiveKey(betweenReads: Option<WrappedKey>, generated: seq<Byte>, nonce: nat)
      returns (key: Result<ActiveKey>)
      requires Valid()
      requires betweenReads.Some? ==> Unwrap(tenant, betweenReads.value).Ok?
      modifies this
      ensures Valid() && key.Ok? && |rows| == 1
      ensures Unwrap(tenant, rows[0]) == Ok(key.value.plaintextKey) && key.value.keyVersion == rows[0].envelope.keyVersion
      ensures old(rows) != [] ==> rows == old(rows)
      ensures old(rows) == [] && betweenReads.Some? ==> rows == [betweenReads.value]
      ensures old(rows) == [] && betweenReads.None? ==> key.value == ActiveKey(1, generated)
    {
      var existing := rows;
      if |existing| > 0 {
        var plaintextKey := Unwrap(tenant, existing[0]);
        return Ok(ActiveKey(existing[0].envelope.keyVersion, plaintextKey.value));
      }
      if betweenReads.Some? {
        rows := rows + [betweenReads.value];
      }
      existing := rows;
      if |existing| > 0 {
        var plaintextKey := Unwrap(tenant, existing[0]);
        return Ok(ActiveKey(existing[0].envelope.keyVersion, plaintextKey.value));
      }
      UnwrapUndoesWrap(generated, tenant.keyEncryptionKey, tenant.organizationId, tenant.householdId, 1, nonce,
                       tenant.organizationId, tenant.householdId);
      var wrapped := WrapHouseholdKey(generated, tenant.keyEncryptionKey, tenant.organizationId,
                                      tenant.householdId, 1, nonce);
      rows := rows + [wrapped.value];
      key := Ok(ActiveKey(1, generated));
    }
  }
}

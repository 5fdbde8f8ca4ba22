/**
 Appending under the household's advisory lock, by any number of processes that may roll
 back or vanish at any point, and reading the stored rows back. PostgreSQL may reorder the
 members of a jsonb object and rewrites a timestamp in its own format.
 */
module AuditStore {
  import opened Prelude
  import opened Json
  import opened JsonRoundTrip
  import opened JsonOrder
  import opened Audit

  datatype Draft = Draft(occurredAt: string, actorPseudonym: string, action: string, outcome: string,
                         metadata: seq<Member<Value>>)

  /** What reading a row back does to a timestamp and to an object. */
  datatype Storage = Storage(time: string -> string, jsonb: seq<Member<Value>> -> seq<Member<Value>>)

  function Build(organizationId: string, householdId: string, log: seq<Event>, draft: Draft): Input {
    Input(organizationId, householdId, |log| + 1, draft.occurredAt, draft.actorPseudonym, draft.action,
          draft.outcome, draft.metadata, PreviousHash(log, |log|))
  }

  // ----- one process -----

  class PostgresAuditStore {
    const key: Key
    const organizationId: string
    const householdId: string
    var rows: seq<Event>

    ghost predicate Valid()
      reads this
    {
      IsChain(rows, key)
    }

    constructor (key: Key, organizationId: string, householdId: string)
      ensures Valid() && rows == []
    {
      this.key, this.organizationId, this.householdId := key, organizationId, householdId;
      rows := [];
    }

    method Append(draft: Draft) returns (result: Result<Event>)
      requires Valid()
      modifies this
      ensures Valid()
      ensures result.Ok? ==>
        && result.value.input.organizationId == organizationId && result.value.input.householdId == householdId
        && result.value.input.occurredAt == draft.occurredAt
        && result.value.input.actorPseudonym == draft.actorPseudonym && result.value.input.action == draft.action
        && result.value.input.outcome == draft.outcome && result.value.input.metadata == draft.metadata
      ensures result == Create(Build(organizationId, householdId, old(rows), draft), key)
      ensures rows == if result.Ok? then old(rows) + [result.value] else old(rows)
    {
      assert rows != [] ==> LinkOk(rows, |rows| - 1, key);
      var sequence := if rows == [] then 0 else rows[|rows| - 1].input.sequence;
      var previousHash := if rows == [] then GENESIS else rows[|rows| - 1].eventHash;
      var input := Input(organizationId, householdId, sequence + 1, draft.occurredAt, draft.actorPseudonym,
                         draft.action, draft.outcome, draft.metadata, previousHash);
      result := Create(input, key);
      if result.Ok? {
        ChainGrows(rows, input, key);
        rows := rows + [result.value];
      }
    }
  }

  // ----- many processes -----

  datatype Appender =
    | Idle
    | Waiting(draft: Draft)
    | Locked(draft: Draft)
    | HasRead(draft: Draft, sequence: nat, previousHash: string)
    | Inserted(event: Event)

  datatype System = System(log: seq<Event>, lock: Option<nat>, appenders: map<nat, Appender>)

  datatype Action = Request(p: nat, draft: Draft) | Acquire(p: nat) | ReadLast(p: nat) | Insert(p: nat)
                  | Commit(p: nat) | Rollback(p: nat)

  datatype Household = Household(organizationId: string, householdId: string, key: Key)

  function At(s: System, p: nat): Appender {
    if p in s.appenders then s.appenders[p] else Idle
  }

  function Release(s: System, p: nat): System {
    s.(lock := if s.lock == Some(p) then None else s.lock, appenders := s.appenders[p := Idle])
  }

  function Apply(h: Household, s: System, a: Action): System {
    match a
    case Request(p, draft) =>
      if At(s, p).Idle? then s.(appenders := s.appenders[p := Waiting(draft)]) else s
    case Acquire(p) =>
      if At(s, p).Waiting? && s.lock.None?
      then s.(lock := Some(p), appenders := s.appenders[p := Locked(At(s, p).draft)]) else s
    case ReadLast(p) =>
      if At(s, p).Locked?
      then s.(appenders := s.appenders[p := HasRead(At(s, p).draft,
                                                    if s.log == [] then 0 else s.log[|s.log| - 1].input.sequence,
                                                    PreviousHash(s.log, |s.log|))])
      else s
    case Insert(p) =>
      (match At(s, p)
       case HasRead(draft, sequence, previousHash) =>
         (match Create(Input(h.organizationId, h.householdId, sequence + 1, draft.occurredAt, draft.actorPseudonym,
                             draft.action, draft.outcome, draft.metadata, previousHash), h.key)
          case Ok(event) => s.(appenders := s.appenders[p := Inserted(event)])
          case Err(_) => Release(s, p))
       case _ => s)
    case Commit(p) =>
      if At(s, p).Inserted? then Release(s.(log := s.log + [At(s, p).event]), p) else s
    case Rollback(p) => Release(s, p)
  }

  function Execute(h: Household, actions: seq<Action>): System {
    if actions == [] then System([], None, map[])
    else Apply(h, Execute(h, actions[..|actions| - 1]), actions[|actions| - 1])
  }

  predicate HoldsLock(appender: Appender) {
    appender.Locked? || appender.HasRead? || appender.Inserted?
  }

  predicate AppenderOk(h: Household, s: System, p: nat)
    requires p in s.appenders
  {
    && (HoldsLock(s.appenders[p]) ==> s.lock == Some(p))
    && match s.appenders[p]
       case HasRead(_, sequence, previousHash) =>
         sequence == |s.log| && previousHash == PreviousHash(s.log, |s.log|)
       case Inserted(event) =>
         && event.input.sequence == |s.log| + 1 && event.input.previousHash == PreviousHash(s.log, |s.log|)
         && Create(event.input, h.key) == Ok(event)
       case _ => true
  }

  predicate Invariant(h: Household, s: System) {
    && IsChain(s.log, h.key) && (forall p :: p in s.appenders ==> AppenderOk(h, s, p))
    && (s.lock.Some? ==> HoldsLock(At(s, s.lock.value)))
  }

  lemma StepKeepsOwnPart(h: Household, s: System, a: Action)
    requires Invariant(h, s)
    ensures var t := Apply(h, s, a);
      && IsChain(t.log, h.key) && (a.p in t.appenders ==> AppenderOk(h, t, a.p))
      && (t.lock.Some? ==> HoldsLock(At(t, t.lock.value)))
  {
    if a.p in s.appenders {
      assert AppenderOk(h, s, a.p);
    }
    if a.Commit? && At(s, a.p).Inserted? {
      ChainGrows(s.log, At(s, a.p).event.input, h.key);
    }
    assert s.log != [] ==> LinkOk(s.log, |s.log| - 1, h.key);
  }

  lemma StepKeepsInvariant(h: Household, s: System, a: Action)
    requires Invariant(h, s)
    ensures Invariant(h, Apply(h, s, a))
  {
    var t := Apply(h, s, a);
    StepKeepsOwnPart(h, s, a);
    forall q | q in t.appenders ensures AppenderOk(h, t, q) {
      if q != a.p {
        assert AppenderOk(h, s, q);
        assert a.p in s.appenders ==> AppenderOk(h, s, a.p);
      }
    }
  }

  /** Whatever interleaves or rolls back, the committed log is a chain numbered 1 to n without gaps. */
  lemma {:induction false} CommittedLogIsChain(h: Household, actions: seq<Action>)
    ensures Invariant(h, Execute(h, actions))
    ensures var log := Execute(h, actions).log;
      Verifies(log, h.key) && forall i :: 0 <= i < |log| ==> log[i].input.sequence == i + 1
    decreases |actions|
  {
    if actions != [] {
      CommittedLogIsChain(h, actions[..|actions| - 1]);
      StepKeepsInvariant(h, Execute(h, actions[..|actions| - 1]), actions[|actions| - 1]);
    }
    var log := Execute(h, actions).log;
    VerifyAcceptsExactlyChains(log, h.key);
    forall i | 0 <= i < |log| ensures log[i].input.sequence == i + 1 {
      assert LinkOk(log, i, h.key);
    }
  }

  // ----- reading the rows back -----

  function ReadBack(e: Event, storage: Storage): Event {
    e.(input := e.input.(occurredAt := storage.time(e.input.occurredAt), metadata := storage.jsonb(e.input.metadata)))
  }

  function ReadBackAll(log: seq<Event>, storage: Storage): (rows: seq<Event>)
    ensures |rows| == |log| && forall i :: 0 <= i < |log| ==> rows[i] == ReadBack(log[i], storage)
  {
    if log == [] then [] else [ReadBack(log[0], storage)] + ReadBackAll(log[1..], storage)
  }

  /** jsonb keeps the members and may reorder them. */
  ghost predicate KeepsMembers(storage: Storage, metadata: seq<Member<Value>>) {
    SameMembers(metadata, storage.jsonb(metadata)) && DistinctKeys(storage.jsonb(metadata))
  }

  predicate Readable(h: Household, e: Event) {
    IsMetadata(e.input.metadata) && Distinguishes(h.key.order, ToJson(e.input))
  }

  lemma SameMembersAreSame(a: seq<Member<Value>>, b: seq<Member<Value>>)
    requires SameMembers(a, b) && IsMetadata(a)
    ensures Same(Obj(a), Obj(b))
  {
    forall i | 0 <= i < |a| ensures Matches(a[i], b) {
      assert a[i] in b;
      var j :| 0 <= j < |b| && b[j] == a[i];
      assert IsScalar(a[i].value) && Same(a[i].value, b[j].value);
    }
    forall j | 0 <= j < |b| ensures MatchedBy(a, b[j]) {
      assert b[j] in a;
      var i :| 0 <= i < |a| && a[i] == b[j];
      assert IsScalar(a[i].value) && Same(a[i].value, b[j].value);
    }
  }

  lemma InputsReadAlike(x: Input, y: Input)
    requires x.(metadata := []) == y.(metadata := []) && Same(Obj(x.metadata), Obj(y.metadata))
    ensures Same(ToJson(x), ToJson(y))
  {
    var a, b := Members(x), Members(y);
    forall i | 0 <= i < 9 ensures a[i].key == b[i].key && Same(a[i].value, b[i].value) {
      assert i == 7 || a[i] == b[i];
      assert a[i].value.Str? || a[i].value.Number? || i == 7;
    }
    forall i | 0 <= i < |a| ensures Matches(a[i], b) && MatchedBy(a, b[i]) {
      assert a[i].key == b[i].key && Same(a[i].value, b[i].value);
    }
  }

  lemma ReadBackMetadata(h: Household, storage: Storage, e: Event)
    requires IsMetadata(e.input.metadata) && KeepsMembers(storage, e.input.metadata)
    ensures var r := storage.jsonb(e.input.metadata);
      && IsMetadata(r) && Same(Obj(e.input.metadata), Obj(r))
      && (MetadataAllowed(r, h.key) <==> MetadataAllowed(e.input.metadata, h.key))
  {
    var m, r := e.input.metadata, storage.jsonb(e.input.metadata);
    SameMembersAreSame(m, r);
    forall i | 0 <= i < |r| ensures IsScalar(r[i].value) && WellFormed(r[i].value) {
      assert r[i] in m;
    }
    if MetadataAllowed(m, h.key) {
      forall i | 0 <= i < |r|
        ensures !h.key.forbidden(r[i].key) && (r[i].value.Str? ==> |r[i].value.text| <= 120)
      {
        assert r[i] in m;
      }
    }
    if MetadataAllowed(r, h.key) {
      forall i | 0 <= i < |m|
        ensures !h.key.forbidden(m[i].key) && (m[i].value.Str? ==> |m[i].value.text| <= 120)
      {
        assert m[i] in r;
      }
    }
  }

  /** A row reads back with the same digest exactly when its timestamp survives storage. */
  lemma RowSurvivesExactly(h: Household, storage: Storage, e: Event)
    requires Injective(h.key.hmac) && Readable(h, e) && KeepsMembers(storage, e.input.metadata)
    ensures var r := ReadBack(e, storage);
      h.key.hmac(Print(ToJson(r.input), h.key.order)) == h.key.hmac(Print(ToJson(e.input), h.key.order))
      <==> storage.time(e.input.occurredAt) == e.input.occurredAt
  {
    var r := ReadBack(e, storage);
    ReadBackMetadata(h, storage, e);
    EventIsWellFormed(e.input);
    EventIsWellFormed(r.input);
    PrintIdentifiesValues(ToJson(e.input), ToJson(r.input), h.key.order);
    if storage.time(e.input.occurredAt) == e.input.occurredAt {
      InputsReadAlike(e.input, r.input);
    } else if Same(ToJson(e.input), ToJson(r.input)) {
      SameJsonIsSameInput(e.input, r.input);
      assert false;
    }
  }

  lemma {:induction false} LinkSurvivesExactly(h: Household, storage: Storage, log: seq<Event>, i: nat)
    requires Injective(h.key.hmac) && IsChain(log, h.key) && i < |log|
    requires Readable(h, log[i]) && KeepsMembers(storage, log[i].input.metadata)
    ensures LinkOk(ReadBackAll(log, storage), i, h.key)
            <==> storage.time(log[i].input.occurredAt) == log[i].input.occurredAt
  {
    assert LinkOk(log, i, h.key);
    ReadBackMetadata(h, storage, log[i]);
    RowSurvivesExactly(h, storage, log[i]);
  }

  /**
   The committed log, read back from its rows, verifies if and only if every committed
   timestamp was already in the form the database gives back. Reordered metadata never
   breaks it, because the canonical text does not depend on key order.
   */
  lemma {:induction false} StoredLogVerifiesExactly(h: Household, storage: Storage, actions: seq<Action>)
    requires Injective(h.key.hmac)
    requires var log := Execute(h, actions).log;
      forall i :: 0 <= i < |log| ==> Readable(h, log[i]) && KeepsMembers(storage, log[i].input.metadata)
    ensures var log := Execute(h, actions).log;
      Verifies(ReadBackAll(log, storage), h.key)
      <==> forall i :: 0 <= i < |log| ==> storage.time(log[i].input.occurredAt) == log[i].input.occurredAt
  {
    var log := Execute(h, actions).log;
    var rows := ReadBackAll(log, storage);
    CommittedLogIsChain(h, actions);
    VerifyAcceptsExactlyChains(rows, h.key);
    forall i | 0 <= i < |log|
      ensures LinkOk(rows, i, h.key) <==> storage.time(log[i].input.occurredAt) == log[i].input.occurredAt
    {
      LinkSurvivesExactly(h, storage, log, i);
    }
  }

  // ----- which requests the stored log survives -----

  /** The event is the household's, and says what one of the drafts says. */
  predicate TakenFrom(h: Household, e: Event, drafts: set<Draft>) {
    && e.input.organizationId == h.organizationId && e.input.householdId == h.householdId
    && exists d :: d in drafts && Says(e.input, d)
  }

  predicate Says(e: Input, d: Draft) {
    && e.occurredAt == d.occurredAt && e.actorPseudonym == d.actorPseudonym && e.action == d.action
    && e.outcome == d.outcome && e.metadata == d.metadata
  }

  predicate OnlyRequests(actions: seq<Action>, drafts: set<Draft>) {
    forall i :: 0 <= i < |actions| && actions[i].Request? ==> actions[i].draft in drafts
  }

  predicate AppenderTakesFrom(h: Household, appender: Appender, drafts: set<Draft>) {
    match appender
    case Idle => true
    case Waiting(draft) => draft in drafts
    case Locked(draft) => draft in drafts
    case HasRead(draft, _, _) => draft in drafts
    case Inserted(event) => TakenFrom(h, event, drafts)
  }

  predicate SystemTakesFrom(h: Household, s: System, drafts: set<Draft>) {
    && (forall i :: 0 <= i < |s.log| ==> TakenFrom(h, s.log[i], drafts))
    && forall p :: p in s.appenders ==> AppenderTakesFrom(h, s.appenders[p], drafts)
  }

  /** Every committed event belongs to the household and says what somebody asked to record. */
  lemma {:induction false} CommittedEventsWereRequested(h: Household, actions: seq<Action>, drafts: set<Draft>)
    requires OnlyRequests(actions, drafts)
    ensures SystemTakesFrom(h, Execute(h, actions), drafts)
    decreases |actions|
  {
    if actions != [] {
      CommittedEventsWereRequested(h, actions[..|actions| - 1], drafts);
      assert actions[|actions| - 1].Request? ==> actions[|actions| - 1].draft in drafts;
    }
  }

  /** The metadata is a record whose keys, with the event's own, the collation tells apart. */
  ghost predicate Storable(h: Household, storage: Storage, d: Draft) {
    && KeepsMembers(storage, d.metadata)
    && Readable(h, Event(Build(h.organizationId, h.householdId, [], d), ""))
  }

  lemma ReadableByMetadata(h: Household, e: Event, f: Event)
    requires Readable(h, e) && e.input.metadata == f.input.metadata
    ensures Readable(h, f)
  {
    var a, b := Members(e.input), Members(f.input);
    forall i, j | 0 <= i < |b| && 0 <= j < |b| && b[i].key != b[j].key
      ensures h.key.order(b[i].key) != h.key.order(b[j].key)
    {
      assert a[i].key == b[i].key && a[j].key == b[j].key;
    }
    forall i | 0 <= i < |b| ensures Distinguishes(h.key.order, b[i].value) {
      assert i == 7 || !b[i].value.Obj?;
      assert Distinguishes(h.key.order, a[7].value);
    }
  }

  /** What one process does to append one event. */
  function OneAppend(p: nat, d: Draft): seq<Action> {
    [Request(p, d), Acquire(p), ReadLast(p), Insert(p), Commit(p)]
  }

  lemma {:induction false} OneMore(h: Household, actions: seq<Action>, a: Action)
    ensures Execute(h, actions + [a]) == Apply(h, Execute(h, actions), a)
  {
    assert (actions + [a])[..|actions|] == actions;
  }

  lemma RequestIsRead(h: Household, s: System, p: nat, d: Draft)
    requires Invariant(h, s) && At(s, p).Idle? && s.lock.None?
    ensures Apply(h, Apply(h, Apply(h, s, Request(p, d)), Acquire(p)), ReadLast(p))
         == s.(lock := Some(p), appenders := s.appenders[p := HasRead(d, |s.log|, PreviousHash(s.log, |s.log|))])
  {
    assert s.log != [] ==> LinkOk(s.log, |s.log| - 1, h.key);
    var waiting := Apply(h, s, Request(p, d));
    assert waiting == s.(appenders := s.appenders[p := Waiting(d)]);
    var locked := Apply(h, waiting, Acquire(p));
    assert locked == s.(lock := Some(p), appenders := waiting.appenders[p := Locked(d)]);
    assert locked.appenders[p := HasRead(d, |s.log|, PreviousHash(s.log, |s.log|))]
           == s.appenders[p := HasRead(d, |s.log|, PreviousHash(s.log, |s.log|))];
  }

  lemma {:induction false} OneAppendReads(h: Household, before: seq<Action>, p: nat, d: Draft)
    requires var s := Execute(h, before); Invariant(h, s) && At(s, p).Idle? && s.lock.None?
    ensures var s := Execute(h, before);
      Execute(h, before + OneAppend(p, d)[..3])
      == s.(lock := Some(p), appenders := s.appenders[p := HasRead(d, |s.log|, PreviousHash(s.log, |s.log|))])
  {
    var a := OneAppend(p, d);
    RequestIsRead(h, Execute(h, before), p, d);
    OneMore(h, before, a[0]);
    OneMore(h, before + [a[0]], a[1]);
    OneMore(h, before + [a[0]] + [a[1]], a[2]);
    assert before + [a[0]] + [a[1]] + [a[2]] == before + a[..3];
  }

  lemma ReadIsCommitted(h: Household, s: System, p: nat, d: Draft)
    requires At(s, p) == HasRead(d, |s.log|, PreviousHash(s.log, |s.log|)) && s.lock == Some(p)
    ensures var created := Create(Build(h.organizationId, h.householdId, s.log, d), h.key);
      var t := Apply(h, Apply(h, s, Insert(p)), Commit(p));
      && t.log == s.log + (if created.Ok? then [created.value] else [])
      && At(t, p).Idle? && t.lock.None?
  {
  }

  /**
   Whatever happened before: when nobody is between taking and giving back the lock, a
   process left alone adds exactly its event on top, if it is not refused, and leaves the
   lock free for the next.
   */
  lemma {:induction false} AppenderLeftAloneAppends(h: Household, before: seq<Action>, p: nat, d: Draft)
    requires var s := Execute(h, before); At(s, p).Idle? && forall q :: !HoldsLock(At(s, q))
    ensures var s := Execute(h, before);
      var created := Create(Build(h.organizationId, h.householdId, s.log, d), h.key);
      var t := Execute(h, before + OneAppend(p, d));
      && t.log == s.log + (if created.Ok? then [created.value] else [])
      && At(t, p).Idle? && t.lock.None?
  {
    var s := Execute(h, before);
    var a := OneAppend(p, d);
    CommittedLogIsChain(h, before);
    OneAppendReads(h, before, p, d);
    ReadIsCommitted(h, Execute(h, before + a[..3]), p, d);
    OneMore(h, before + a[..3], Insert(p));
    OneMore(h, before + a[..3] + [Insert(p)], Commit(p));
    assert before + a[..3] + [Insert(p)] + [Commit(p)] == before + a;
  }

  /** One append of a draft whose timestamp is stored in another form: its log no longer verifies. */
  lemma {:induction false} OneRewrittenTimestampFails(h: Household, storage: Storage, d: Draft)
    requires Injective(h.key.hmac) && Storable(h, storage, d) && MetadataAllowed(d.metadata, h.key)
    requires storage.time(d.occurredAt) != d.occurredAt
    ensures !Verifies(ReadBackAll(Execute(h, OneAppend(0, d)).log, storage), h.key)
  {
    var log := Execute(h, OneAppend(0, d)).log;
    AppenderLeftAloneAppends(h, [], 0, d);
    assert [] + OneAppend(0, d) == OneAppend(0, d);
    ReadableByMetadata(h, Event(Build(h.organizationId, h.householdId, [], d), ""), log[0]);
    StoredLogVerifiesExactly(h, storage, OneAppend(0, d));
    assert storage.time(log[0].input.occurredAt) != log[0].input.occurredAt;
  }

  lemma {:induction false} StoredTimestampsVerify(h: Household, storage: Storage, actions: seq<Action>, drafts: set<Draft>)
    requires Injective(h.key.hmac) && OnlyRequests(actions, drafts)
    requires forall d :: d in drafts ==> Storable(h, storage, d)
    requires forall d :: d in drafts && MetadataAllowed(d.metadata, h.key) ==>
      storage.time(d.occurredAt) == d.occurredAt
    ensures Verifies(ReadBackAll(Execute(h, actions).log, storage), h.key)
  {
    var log := Execute(h, actions).log;
    CommittedEventsWereRequested(h, actions, drafts);
    CommittedLogIsChain(h, actions);
    forall i | 0 <= i < |log|
      ensures Readable(h, log[i]) && KeepsMembers(storage, log[i].input.metadata)
      ensures storage.time(log[i].input.occurredAt) == log[i].input.occurredAt
    {
      assert TakenFrom(h, log[i], drafts) && LinkOk(log, i, h.key);
      var d :| d in drafts && Says(log[i].input, d);
      ReadableByMetadata(h, Event(Build(h.organizationId, h.householdId, [], d), ""), log[i]);
    }
    StoredLogVerifiesExactly(h, storage, actions);
  }

  ghost predicate EveryRunVerifies(h: Household, storage: Storage, drafts: set<Draft>) {
    forall actions :: OnlyRequests(actions, drafts) ==>
      Verifies(ReadBackAll(Execute(h, actions).log, storage), h.key)
  }

  /**
   The stored log verifies in every run over some drafts if and only if the timestamp of each
   draft that is not refused is already in the form the database gives back.
   */
  lemma EveryRunVerifiesExactly(h: Household, storage: Storage, drafts: set<Draft>)
    requires Injective(h.key.hmac) && forall d :: d in drafts ==> Storable(h, storage, d)
    ensures EveryRunVerifies(h, storage, drafts) <==>
      forall d :: d in drafts && MetadataAllowed(d.metadata, h.key) ==> storage.time(d.occurredAt) == d.occurredAt
  {
    if d :| d in drafts && MetadataAllowed(d.metadata, h.key) && storage.time(d.occurredAt) != d.occurredAt {
      assert OnlyRequests(OneAppend(0, d), drafts);
      OneRewrittenTimestampFails(h, storage, d);
    } else {
      forall actions | OnlyRequests(actions, drafts)
        ensures Verifies(ReadBackAll(Execute(h, actions).log, storage), h.key)
      {
        StoredTimestampsVerify(h, storage, actions, drafts);
      }
    }
  }

  /** A row's timestamp comes back as `toISOString` prints the instant the text stood for. */
  ghost predicate PrintsInstants(storage: Storage, instant: string -> int, toIsoString: int -> string) {
    forall text :: storage.time(text) == toIsoString(instant(text))
  }

  /** The callers send `new Date().toISOString()`, which is read as the instant it printed: their logs verify. */
  lemma {:induction false} PrintedInstantsVerify(h: Household, storage: Storage, actions: seq<Action>, drafts: set<Draft>,
                              instant: string -> int, toIsoString: int -> string)
    requires Injective(h.key.hmac) && OnlyRequests(actions, drafts)
    requires forall d :: d in drafts ==> Storable(h, storage, d)
    requires PrintsInstants(storage, instant, toIsoString) && forall t :: instant(toIsoString(t)) == t
    requires forall d :: d in drafts ==> exists t :: d.occurredAt == toIsoString(t)
    ensures Verifies(ReadBackAll(Execute(h, actions).log, storage), h.key)
  {
    forall d | d in drafts ensures storage.time(d.occurredAt) == d.occurredAt {
      var t :| d.occurredAt == toIsoString(t);
      assert storage.time(d.occurredAt) == toIsoString(instant(toIsoString(t)));
    }
    StoredTimestampsVerify(h, storage, actions, drafts);
  }

  /** The same instant without its milliseconds, as a caller of the store may send it. */
  lemma {:induction false} TimestampWithoutMillisecondsFails(h: Household, storage: Storage)
    requires Injective(h.key.hmac) && storage.time("2026-08-05T20:00:00Z") == "2026-08-05T20:00:00.000Z"
    requires var d := Draft("2026-08-05T20:00:00Z", "actor", "review", "allowed", []); Storable(h, storage, d)
    ensures var d := Draft("2026-08-05T20:00:00Z", "actor", "review", "allowed", []);
      !Verifies(ReadBackAll(Execute(h, OneAppend(0, d)).log, storage), h.key)
  {
    var d := Draft("2026-08-05T20:00:00Z", "actor", "review", "allowed", []);
    assert |"2026-08-05T20:00:00Z"| != |"2026-08-05T20:00:00.000Z"|;
    OneRewrittenTimestampFails(h, storage, d);
  }
}

/**
 The audit chain: each event's HMAC covers its canonical text, which contains the hash of
 the event before it. HMAC is an arbitrary injective function; the forbidden-key pattern,
 the collation and what PostgreSQL does to a timestamp and to a jsonb object are
 parameters too.
 */
module Audit {
  import opened Prelude
  import opened Json
  import opened JsonRoundTrip
  import opened JsonOrder
  import opened JsonFields
  import opened Numerals
  import Hex

  const GENESIS := "GENESIS"
  const MAX_SAFE_INTEGER := 9_007_199_254_740_991

  datatype Input = Input(
    organizationId: string,
    householdId: string,
    sequence: nat,
    occurredAt: string,
    actorPseudonym: string,
    action: string,
    outcome: string,
    metadata: seq<Member<Value>>,
    previousHash: string)

  datatype Event = Event(input: Input, eventHash: string)

  datatype Key = Key(
    hmac: string -> seq<Byte>,
    order: Collation,
    forbidden: string -> bool)

  function Members(e: Input): seq<Member<Value>> {
    [Member("organizationId", Str(e.organizationId)),
     Member("householdId", Str(e.householdId)),
     Member("sequence", Number(Decimal(e.sequence))),
     Member("occurredAt", Str(e.occurredAt)),
     Member("actorPseudonym", Str(e.actorPseudonym)),
     Member("action", Str(e.action)),
     Member("outcome", Str(e.outcome)),
     Member("metadata", Obj(e.metadata)),
     Member("previousHash", Str(e.previousHash))]
  }

  /** The fields the digest declares, in the order of the source. */
  function ToJson(e: Input): Value {
    Obj(Members(e))
  }

  predicate IsScalar(v: Value) {
    v.Null? || v.Bool? || v.Str? || v.Number?
  }

  /** `Record<string, string | number | boolean | null>`. */
  predicate IsMetadata(metadata: seq<Member<Value>>) {
    && DistinctKeys(metadata)
    && forall i :: 0 <= i < |metadata| ==> IsScalar(metadata[i].value) && WellFormed(metadata[i].value)
  }

  predicate MetadataAllowed(metadata: seq<Member<Value>>, key: Key) {
    forall i :: 0 <= i < |metadata| ==>
      !key.forbidden(metadata[i].key) && (metadata[i].value.Str? ==> |metadata[i].value.text| <= 120)
  }

  function Digest(e: Input, key: Key): Result<seq<Byte>> {
    if !MetadataAllowed(e.metadata, key) then Err("audit metadata is forbidden")
    else Ok(key.hmac(Print(ToJson(e), key.order)))
  }

  function Create(e: Input, key: Key): Result<Event> {
    if e.sequence < 1 || e.sequence > MAX_SAFE_INTEGER then Err("audit sequence must be positive")
    else match Digest(e, key)
      case Err(error) => Err(error)
      case Ok(bytes) => Ok(Event(e, Hex.Encode(bytes)))
  }

  /** An event is created exactly for a safe positive number and metadata without forbidden keys or long texts. */
  lemma CreatesExactlyWhen(e: Input, key: Key)
    ensures Create(e, key).Ok? <==>
      && 1 <= e.sequence <= 9_007_199_254_740_991
      && forall m :: m in e.metadata ==> !key.forbidden(m.key) && (m.value.Str? ==> |m.value.text| <= 120)
    ensures Create(e, key).Ok? ==>
      && Create(e, key).value.input == e
      && Hex.Decode(Create(e, key).value.eventHash) == key.hmac(Print(ToJson(e), key.order))
      && Create(e, key).value.eventHash == Hex.Lower(Hex.HexPart(Create(e, key).value.eventHash))
  {
    if Create(e, key).Ok? {
      var hash := Create(e, key).value.eventHash;
      Hex.DecodeUndoesEncode(Digest(e, key).value);
      Hex.EncodeOfDecode(hash);
    }
    if MetadataAllowed(e.metadata, key) {
      forall m | m in e.metadata ensures !key.forbidden(m.key) && (m.value.Str? ==> |m.value.text| <= 120) {
        var i :| 0 <= i < |e.metadata| && e.metadata[i] == m;
      }
    }
  }

  /** The digest covers the nine declared fields, each under its own name. */
  lemma FieldsAreNamed(e: Input)
    ensures |Members(e)| == 9 && DistinctKeys(Members(e))
    ensures var v := Some(ToJson(e));
      && Field(v, "organizationId") == Some(Str(e.organizationId))
      && Field(v, "householdId") == Some(Str(e.householdId))
      && Field(v, "sequence") == Some(Number(Decimal(e.sequence)))
      && Field(v, "occurredAt") == Some(Str(e.occurredAt))
      && Field(v, "actorPseudonym") == Some(Str(e.actorPseudonym))
      && Field(v, "action") == Some(Str(e.action))
      && Field(v, "outcome") == Some(Str(e.outcome))
      && Field(v, "metadata") == Some(Obj(e.metadata))
      && Field(v, "previousHash") == Some(Str(e.previousHash))
  {
    KeysAreDistinct(e);
    var m := Members(e);
    LookupOfMember(m, 0);
    LookupOfMember(m, 1);
    LookupOfMember(m, 2);
    LookupOfMember(m, 3);
    LookupOfMember(m, 4);
    LookupOfMember(m, 5);
    LookupOfMember(m, 6);
    LookupOfMember(m, 7);
    LookupOfMember(m, 8);
  }

  // ----- verification -----

  /** The loop of `verifyAuditChain` from position `index` on. */
  function VerifyFrom(events: seq<Event>, index: nat, previousHash: string, key: Key): Result<bool>
    requires index <= |events|
    decreases |events| - index
  {
    if index == |events| then Ok(true)
    else
      var event := events[index];
      if event.input.sequence != index + 1 || event.input.previousHash != previousHash then Ok(false)
      else match Digest(event.input, key)
        case Err(error) => Err(error)
        case Ok(expected) =>
          if Hex.Decode(event.eventHash) != Hex.Decode(Hex.Encode(expected)) then Ok(false)
          else VerifyFrom(events, index + 1, event.eventHash, key)
  }

  method VerifyAuditChain(events: seq<Event>, key: Key) returns (result: Result<bool>)
    ensures result == VerifyFrom(events, 0, GENESIS, key)
  {
    var previousHash := GENESIS;
    var index := 0;
    while index < |events|
      invariant 0 <= index <= |events|
      invariant VerifyFrom(events, 0, GENESIS, key) == VerifyFrom(events, index, previousHash, key)
    {
      var event := events[index];
      if event.input.sequence != index + 1 || event.input.previousHash != previousHash {
        return Ok(false);
      }
      var digest := Digest(event.input, key);
      if digest.Err? {
        return Err(digest.error);
      }
      var expected := Hex.Decode(Hex.Encode(digest.value));
      var actual := Hex.Decode(event.eventHash);
      if actual != expected {
        return Ok(false);
      }
      previousHash := event.eventHash;
      index := index + 1;
    }
    result := Ok(true);
  }

  function PreviousHash(events: seq<Event>, i: nat): string
    requires i <= |events|
  {
    if i == 0 then GENESIS else events[i - 1].eventHash
  }

  /** What a chain is, said without a loop. */
  predicate LinkOk(events: seq<Event>, i: nat, key: Key)
    requires i < |events|
  {
    var e := events[i];
    && e.input.sequence == i + 1
    && e.input.previousHash == PreviousHash(events, i)
    && MetadataAllowed(e.input.metadata, key)
    && Hex.Decode(e.eventHash) == key.hmac(Print(ToJson(e.input), key.order))
  }

  predicate IsChain(events: seq<Event>, key: Key) {
    forall i :: 0 <= i < |events| ==> LinkOk(events, i, key)
  }

  lemma OneLinkIsChecked(events: seq<Event>, index: nat, key: Key)
    requires index < |events|
    ensures LinkOk(events, index, key) ==>
      VerifyFrom(events, index, PreviousHash(events, index), key)
      == VerifyFrom(events, index + 1, PreviousHash(events, index + 1), key)
    ensures !LinkOk(events, index, key) ==> VerifyFrom(events, index, PreviousHash(events, index), key) != Ok(true)
  {
    var digest := Digest(events[index].input, key);
    if digest.Ok? {
      Hex.DecodeUndoesEncode(digest.value);
    }
  }

  lemma {:induction false} VerifyFromChecksLinks(events: seq<Event>, index: nat, key: Key)
    requires index <= |events|
    ensures VerifyFrom(events, index, PreviousHash(events, index), key) == Ok(true)
            <==> forall i :: index <= i < |events| ==> LinkOk(events, i, key)
    decreases |events| - index
  {
    if index < |events| {
      OneLinkIsChecked(events, index, key);
      VerifyFromChecksLinks(events, index + 1, key);
      assert (forall i :: index <= i < |events| ==> LinkOk(events, i, key))
             <==> LinkOk(events, index, key) && forall i :: index + 1 <= i < |events| ==> LinkOk(events, i, key);
    }
  }

  lemma VerifyAcceptsExactlyChains(events: seq<Event>, key: Key)
    ensures Verifies(events, key) <==> IsChain(events, key)
  {
    VerifyFromChecksLinks(events, 0, key);
  }

  /** The first link that is numbered and linked right but holds forbidden metadata. */
  predicate Throws(events: seq<Event>, i: nat, key: Key) {
    && i < |events| && (forall j :: 0 <= j < i ==> LinkOk(events, j, key))
    && events[i].input.sequence == i + 1 && events[i].input.previousHash == PreviousHash(events, i)
    && !MetadataAllowed(events[i].input.metadata, key)
  }

  lemma {:induction false} OneLinkThrows(events: seq<Event>, index: nat, key: Key)
    requires index < |events| && !LinkOk(events, index, key) && forall j :: 0 <= j < index ==> LinkOk(events, j, key)
    ensures VerifyFrom(events, index, PreviousHash(events, index), key).Err? <==> Throws(events, index, key)
  {
    var digest := Digest(events[index].input, key);
    if digest.Ok? {
      Hex.DecodeUndoesEncode(digest.value);
    }
  }

  /** What the verification from link `index` on comes to, behind good links. */
  function Rest(events: seq<Event>, index: nat, key: Key): Result<bool>
    requires index <= |events|
  {
    VerifyFrom(events, index, PreviousHash(events, index), key)
  }

  lemma GoodLinkPasses(events: seq<Event>, index: nat, key: Key)
    requires index < |events| && LinkOk(events, index, key)
    ensures Rest(events, index, key) == Rest(events, index + 1, key)
  {
    OneLinkIsChecked(events, index, key);
  }

  lemma {:induction false} GoodLinksPass(events: seq<Event>, index: nat, key: Key)
    requires index <= |events| && forall j :: 0 <= j < index ==> LinkOk(events, j, key)
    ensures Rest(events, 0, key) == Rest(events, index, key)
    decreases index
  {
    if index > 0 {
      GoodLinksPass(events, index - 1, key);
      GoodLinkPasses(events, index - 1, key);
    }
  }

  /** The length of the longest prefix of good links. */
  function GoodPrefix(events: seq<Event>, index: nat, key: Key): (n: nat)
    requires index <= |events| && forall j :: 0 <= j < index ==> LinkOk(events, j, key)
    ensures index <= n <= |events| && (forall j :: 0 <= j < n ==> LinkOk(events, j, key))
    ensures n < |events| ==> !LinkOk(events, n, key)
    decreases |events| - index
  {
    if index == |events| || !LinkOk(events, index, key) then index else GoodPrefix(events, index + 1, key)
  }

  lemma ThrowsAtTheFirstBadLink(events: seq<Event>, i: nat, n: nat, key: Key)
    requires Throws(events, i, key)
    requires n < |events| && !LinkOk(events, n, key) && forall j :: 0 <= j < n ==> LinkOk(events, j, key)
    ensures i == n
  {
    ThrowingLinkIsBad(events, i, key);
  }

  lemma ThrowingLinkIsBad(events: seq<Event>, i: nat, key: Key)
    requires Throws(events, i, key)
    ensures i < |events| && !LinkOk(events, i, key)
  {
  }

  /** Verification throws, instead of answering, exactly when it comes to forbidden metadata behind a good prefix. */
  lemma {:induction false} VerificationThrowsExactly(events: seq<Event>, key: Key)
    ensures VerifyFrom(events, 0, GENESIS, key).Err? <==> exists i :: 0 <= i < |events| && Throws(events, i, key)
  {
    var n := GoodPrefix(events, 0, key);
    GoodLinksPass(events, n, key);
    if n < |events| {
      OneLinkThrows(events, n, key);
      forall i: nat | Throws(events, i, key) ensures i == n {
        ThrowsAtTheFirstBadLink(events, i, n, key);
      }
    } else {
      forall i: nat | Throws(events, i, key) ensures false {
        ThrowingLinkIsBad(events, i, key);
      }
    }
  }

  // ----- the final hash determines the chain -----

  ghost predicate Injective(hmac: string -> seq<Byte>) {
    forall s, t :: hmac(s) == hmac(t) ==> s == t
  }

  /** Equal in everything but the order of the metadata members. */
  predicate SameInput(a: Input, b: Input) {
    a.(metadata := []) == b.(metadata := []) && Same(Obj(a.metadata), Obj(b.metadata))
  }

  lemma KeysAreDistinct(e: Input)
    ensures DistinctKeys(Members(e))
  {
    var m := Members(e);
    assert m[0].key[0] == 'o' && m[1].key[0] == 'h' && m[2].key[0] == 's' && m[3].key[1] == 'c' && m[4].key[2] == 't'
           && m[5].key[2] == 't' && m[6].key[1] == 'u' && m[7].key[0] == 'm' && m[8].key[0] == 'p';
    assert |m[0].key| == 14 && |m[3].key| == 10 && |m[6].key| == 7 && |m[4].key| == 14 && |m[5].key| == 6;
    assert m[0].key[0] != m[4].key[0] by { assert m[4].key[0] == 'a'; }
  }

  lemma EventIsWellFormed(e: Input)
    requires IsMetadata(e.metadata)
    ensures WellFormed(ToJson(e))
  {
    var m := Members(e);
    KeysAreDistinct(e);
    DecimalIsNumeral(e.sequence);
    MembersWellFormedAt(e.metadata);
    assert WellFormed(m[7].value);
    forall i | 0 <= i < |m| ensures WellFormed(m[i].value) {
      assert i == 2 || i == 7 || m[i].value.Str?;
    }
    MembersWellFormedAt(m);
  }

  lemma MemberIsSame(a: seq<Member<Value>>, b: seq<Member<Value>>, i: nat)
    requires Same(Obj(a), Obj(b)) && i < |a| == |b| && DistinctKeys(b) && a[i].key == b[i].key
    ensures Same(a[i].value, b[i].value)
  {
    assert Matches(a[i], b);
    var j :| 0 <= j < |b| && a[i].key == b[j].key && Same(a[i].value, b[j].value);
  }

  lemma MembersAreSame(x: seq<Member<Value>>, y: seq<Member<Value>>)
    requires Same(Obj(x), Obj(y)) && |x| == |y| && DistinctKeys(y)
    requires forall i :: 0 <= i < |x| ==> x[i].key == y[i].key
    ensures forall i :: 0 <= i < |x| ==> Same(x[i].value, y[i].value)
  {
    forall i | 0 <= i < |x| ensures Same(x[i].value, y[i].value) {
      MemberIsSame(x, y, i);
    }
  }

  lemma {:induction false} ScalarsAreEqual(u: Value, v: Value)
    requires Same(u, v) && (u.Str? || u.Number?)
    ensures u == v
  {
  }

  lemma KeysAgree(a: Input, b: Input)
    ensures forall i :: 0 <= i < 9 ==> Members(a)[i].key == Members(b)[i].key
  {
  }

  lemma ScalarMembersAreEqual(a: Input, b: Input)
    requires forall i :: 0 <= i < 9 ==> Same(Members(a)[i].value, Members(b)[i].value)
    ensures forall i :: 0 <= i < 9 && i != 7 ==> Members(a)[i].value == Members(b)[i].value
    ensures Same(Obj(a.metadata), Obj(b.metadata))
  {
    forall i | 0 <= i < 9 && i != 7 ensures Members(a)[i].value == Members(b)[i].value {
      assert Members(a)[i].value.Str? || Members(a)[i].value.Number?;
      ScalarsAreEqual(Members(a)[i].value, Members(b)[i].value);
    }
    assert Members(a)[7].value == Obj(a.metadata) && Members(b)[7].value == Obj(b.metadata);
  }

  lemma FieldsAreEqual(a: Input, b: Input)
    requires forall i :: 0 <= i < 9 && i != 7 ==> Members(a)[i].value == Members(b)[i].value
    ensures a.(metadata := []) == b.(metadata := [])
  {
    assert Members(a)[0].value == Members(b)[0].value && Members(a)[1].value == Members(b)[1].value;
    assert Members(a)[2].value == Members(b)[2].value && Members(a)[3].value == Members(b)[3].value;
    assert Members(a)[4].value == Members(b)[4].value && Members(a)[5].value == Members(b)[5].value;
    assert Members(a)[6].value == Members(b)[6].value && Members(a)[8].value == Members(b)[8].value;
    DecimalIsInjective(a.sequence, b.sequence);
  }

  lemma SameJsonIsSameInput(a: Input, b: Input)
    requires Same(ToJson(a), ToJson(b))
    ensures SameInput(a, b)
  {
    KeysAreDistinct(b);
    KeysAgree(a, b);
    MembersAreSame(Members(a), Members(b));
    ScalarMembersAreEqual(a, b);
    FieldsAreEqual(a, b);
  }

  /** Two events whose hashes are read as the same bytes, in chains, have the same contents. */
  lemma SameHashIsSameInput(a: Event, b: Event, key: Key)
    requires Injective(key.hmac) && IsMetadata(a.input.metadata) && IsMetadata(b.input.metadata)
    requires Hex.Decode(a.eventHash) == key.hmac(Print(ToJson(a.input), key.order))
    requires Hex.Decode(b.eventHash) == key.hmac(Print(ToJson(b.input), key.order))
    requires Hex.Decode(a.eventHash) == Hex.Decode(b.eventHash)
    ensures SameInput(a.input, b.input)
  {
    EventIsWellFormed(a.input);
    EventIsWellFormed(b.input);
    PrintIsInjective(ToJson(a.input), ToJson(b.input), key.order);
    SameJsonIsSameInput(a.input, b.input);
  }

  /** Read as the same bytes: equal up to case and to what follows the hexadecimal part. */
  predicate SameFinalHash(a: seq<Event>, b: seq<Event>) {
    |a| == |b| > 0 && Hex.Decode(a[|a| - 1].eventHash) == Hex.Decode(b[|b| - 1].eventHash)
  }

  lemma SameLinkIsSameInput(a: seq<Event>, b: seq<Event>, key: Key, i: nat)
    requires Injective(key.hmac) && IsChain(a, key) && IsChain(b, key) && AllMetadata(a) && AllMetadata(b)
    requires i < |a| && i < |b| && Hex.Decode(a[i].eventHash) == Hex.Decode(b[i].eventHash)
    ensures SameInput(a[i].input, b[i].input)
  {
    assert LinkOk(a, i, key) && LinkOk(b, i, key);
    SameHashIsSameInput(a[i], b[i], key);
  }

  lemma SameInputHasSamePredecessor(a: seq<Event>, b: seq<Event>, key: Key, i: nat)
    requires IsChain(a, key) && IsChain(b, key)
    requires i + 1 < |a| && i + 1 < |b| && SameInput(a[i + 1].input, b[i + 1].input)
    ensures a[i].eventHash == b[i].eventHash
  {
    assert LinkOk(a, i + 1, key) && LinkOk(b, i + 1, key);
    assert a[i + 1].input.previousHash == b[i + 1].input.previousHash;
  }

  lemma {:induction false} EventIsDetermined(a: seq<Event>, b: seq<Event>, key: Key, i: nat)
    requires Injective(key.hmac) && IsChain(a, key) && IsChain(b, key) && AllMetadata(a) && AllMetadata(b)
    requires SameFinalHash(a, b) && i < |a|
    ensures SameInput(a[i].input, b[i].input) && (i < |a| - 1 ==> a[i].eventHash == b[i].eventHash)
    decreases |a| - i
  {
    if i < |a| - 1 {
      EventIsDetermined(a, b, key, i + 1);
      SameInputHasSamePredecessor(a, b, key, i);
    }
    SameLinkIsSameInput(a, b, key, i);
  }

  predicate Verifies(events: seq<Event>, key: Key) {
    VerifyFrom(events, 0, GENESIS, key) == Ok(true)
  }

  predicate AllMetadata(events: seq<Event>) {
    forall j :: 0 <= j < |events| ==> IsMetadata(events[j].input.metadata)
  }

  /**
   With an ideal HMAC, two verifying chains of the same length whose final hashes are read
   as the same bytes have the same contents event by event, and the same hash texts but for
   the last: no event can be changed, removed or reordered under a final hash.
   */
  lemma FinalHashDeterminesChain(a: seq<Event>, b: seq<Event>, key: Key)
    requires Injective(key.hmac) && AllMetadata(a) && AllMetadata(b)
    requires Verifies(a, key) && Verifies(b, key) && SameFinalHash(a, b)
    ensures forall i :: 0 <= i < |a| ==> SameInput(a[i].input, b[i].input)
    ensures forall i :: 0 <= i < |a| - 1 ==> a[i].eventHash == b[i].eventHash
  {
    VerifyAcceptsExactlyChains(a, key);
    VerifyAcceptsExactlyChains(b, key);
    forall i | 0 <= i < |a|
      ensures SameInput(a[i].input, b[i].input) && (i < |a| - 1 ==> a[i].eventHash == b[i].eventHash)
    {
      EventIsDetermined(a, b, key, i);
    }
  }

  function Respelled(events: seq<Event>, k: nat, eventHash: string): seq<Event>
    requires k < |events|
  {
    events[k := events[k].(eventHash := eventHash)]
  }

  lemma {:induction false} LastHashIsReadAsBytes(events: seq<Event>, eventHash: string, key: Key)
    requires IsChain(events, key) && events != []
    ensures var last := |events| - 1;
      IsChain(Respelled(events, last, eventHash), key)
      <==> Hex.Decode(eventHash) == Hex.Decode(events[last].eventHash)
  {
    var last := |events| - 1;
    var other := Respelled(events, last, eventHash);
    assert LinkOk(events, last, key);
    forall i | 0 <= i < last ensures LinkOk(other, i, key) {
      assert LinkOk(events, i, key);
    }
    assert LinkOk(other, last, key) <==> Hex.Decode(eventHash) == Hex.Decode(events[last].eventHash);
  }

  lemma InnerHashIsReadAsText(events: seq<Event>, k: nat, eventHash: string, key: Key)
    requires IsChain(events, key) && k < |events| - 1 && eventHash != events[k].eventHash
    ensures !IsChain(Respelled(events, k, eventHash), key)
  {
    assert LinkOk(events, k + 1, key);
    assert !LinkOk(Respelled(events, k, eventHash), k + 1, key);
  }

  /**
   A hash text of a verifying chain can be replaced exactly by itself, or, on the last event
   alone, by any text with the same hexadecimal pairs up to case: every other event's text is
   copied into its successor, the last one's is only compared as bytes.
   */
  lemma {:induction false} OnlyTheLastHashCanBeRespelled(events: seq<Event>, k: nat, eventHash: string, key: Key)
    requires Verifies(events, key) && k < |events|
    ensures Verifies(Respelled(events, k, eventHash), key) <==>
      || eventHash == events[k].eventHash
      || (k == |events| - 1
          && Hex.Lower(Hex.HexPart(eventHash)) == Hex.Lower(Hex.HexPart(events[k].eventHash)))
  {
    VerifyAcceptsExactlyChains(events, key);
    VerifyAcceptsExactlyChains(Respelled(events, k, eventHash), key);
    if k == |events| - 1 {
      Hex.DecodesAlikeExactly(eventHash, events[k].eventHash);
      LastHashIsReadAsBytes(events, eventHash, key);
    } else if eventHash == events[k].eventHash {
      assert Respelled(events, k, eventHash) == events;
    } else {
      InnerHashIsReadAsText(events, k, eventHash, key);
    }
  }

  /** A chain stays one when an event made on top of it is added. */
  lemma ChainGrows(events: seq<Event>, e: Input, key: Key)
    requires IsChain(events, key) && Create(e, key).Ok?
    requires e.sequence == |events| + 1 && e.previousHash == PreviousHash(events, |events|)
    ensures IsChain(events + [Create(e, key).value], key)
  {
    var longer := events + [Create(e, key).value];
    Hex.DecodeUndoesEncode(Digest(e, key).value);
    forall i | 0 <= i < |longer| ensures LinkOk(longer, i, key) {
      if i < |events| { assert LinkOk(events, i, key); }
    }
  }

  // ----- pages -----

  datatype Page = Page(events: seq<Event>, nextSequence: Option<nat>)

  /** The part of `readVerified` after the chain has been verified. */
  function ReadPage(events: seq<Event>, afterSequence: nat, limit: nat): Page
    requires 1 <= limit <= 100
  {
    var available := Later(events, afterSequence);
    var page := if |available| <= limit then available else available[..limit];
    Page(page, if |available| > |page| && page != [] then Some(page[|page| - 1].input.sequence) else None)
  }

  function Later(events: seq<Event>, afterSequence: nat): seq<Event> {
    if events == [] then []
    else (if events[0].input.sequence > afterSequence then [events[0]] else []) + Later(events[1..], afterSequence)
  }

  lemma {:induction false} LaterIsSuffix(events: seq<Event>, first: nat, afterSequence: nat)
    requires forall i :: 0 <= i < |events| ==> events[i].input.sequence == first + i + 1
    ensures Later(events, afterSequence)
            == if afterSequence <= first then events
               else if afterSequence - first <= |events| then events[afterSequence - first..] else []
    decreases |events|
  {
    if events != [] {
      LaterIsSuffix(events[1..], first + 1, afterSequence);
      assert events == [events[0]] + events[1..];
    }
  }

  lemma {:induction false} LaterOfChain(events: seq<Event>, afterSequence: nat, key: Key)
    requires IsChain(events, key) && afterSequence <= |events|
    ensures Later(events, afterSequence) == events[afterSequence..]
    ensures forall i :: 0 <= i < |events| ==> events[i].input.sequence == i + 1
  {
    forall i | 0 <= i < |events| ensures events[i].input.sequence == 0 + i + 1 {
      assert LinkOk(events, i, key);
    }
    LaterIsSuffix(events, 0, afterSequence);
  }

  /** A page of a chain is a slice of it, and says where the next one starts. */
  lemma PageIsSlice(events: seq<Event>, afterSequence: nat, limit: nat, key: Key)
    requires 1 <= limit <= 100 && IsChain(events, key) && afterSequence <= |events|
    ensures var page := ReadPage(events, afterSequence, limit);
      if afterSequence + limit < |events|
      then page == Page(events[afterSequence..afterSequence + limit], Some(afterSequence + limit))
      else page == Page(events[afterSequence..], None)
  {
    LaterOfChain(events, afterSequence, key);
    if afterSequence + limit < |events| {
      assert events[afterSequence..][..limit] == events[afterSequence..afterSequence + limit];
    }
  }

  /** All pages from `afterSequence` on, following `nextSequence`. */
  function Pages(events: seq<Event>, afterSequence: nat, limit: nat, fuel: nat): seq<Event>
    requires 1 <= limit <= 100
    decreases fuel
  {
    var page := ReadPage(events, afterSequence, limit);
    if page.nextSequence.None? || fuel == 0 then page.events
    else page.events + Pages(events, page.nextSequence.value, limit, fuel - 1)
  }

  lemma SuffixSplits(events: seq<Event>, a: nat, b: nat)
    requires a <= b <= |events|
    ensures events[a..] == events[a..b] + events[b..]
  {
  }

  /** One turn of the reader: its page, then whatever is read from where the page ends. */
  lemma OnePageMore(events: seq<Event>, afterSequence: nat, limit: nat, fuel: nat, key: Key)
    requires 1 <= limit <= 100 && IsChain(events, key) && afterSequence <= |events|
    requires afterSequence + limit < |events| ==>
      fuel > 0 && Pages(events, afterSequence + limit, limit, fuel - 1) == events[afterSequence + limit..]
    ensures Pages(events, afterSequence, limit, fuel) == events[afterSequence..]
  {
    PageIsSlice(events, afterSequence, limit, key);
    if afterSequence + limit < |events| {
      SuffixSplits(events, afterSequence, afterSequence + limit);
    }
  }

  /** Following the pages of a verified chain reads every later event exactly once and in order. */
  lemma {:induction false} PagesReadTheWholeChain(events: seq<Event>, afterSequence: nat, limit: nat, fuel: nat, key: Key)
    requires 1 <= limit <= 100 && IsChain(events, key)
    requires afterSequence <= |events| && fuel >= |events| - afterSequence
    ensures Pages(events, afterSequence, limit, fuel) == events[afterSequence..]
    decreases fuel
  {
    if afterSequence + limit < |events| {
      PagesReadTheWholeChain(events, afterSequence + limit, limit, fuel - 1, key);
    }
    OnePageMore(events, afterSequence, limit, fuel, key);
  }
}

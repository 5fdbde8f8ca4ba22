/**
 The encryption context bound to every envelope. The cipher is ideal: a sealed box can be
 opened only with the key and the associated data it was sealed with.
 */
module Envelope {
  import opened Prelude
  import opened Numerals
  import opened Json

  const MAX_SAFE_INTEGER := 9_007_199_254_740_991

  datatype Context = Context(organizationId: string, householdId: string, recordId: string, purpose: string,
                             keyVersion: int)

  /** AES-GCM as a term: the nonce stands for the random initialisation vector. */
  datatype Box = Box(key: seq<Byte>, associatedData: string, plaintext: seq<Byte>, nonce: nat)

  datatype EncryptedEnvelope = EncryptedEnvelope(algorithm: string, keyVersion: int, box: Box)

  const A256GCM := "A256GCM"

  function JoinColons(parts: seq<string>): string {
    if parts == [] then "" else if |parts| == 1 then parts[0] else parts[0] + ":" + JoinColons(parts[1..])
  }

  function AssociatedData(c: Context): Result<string> {
    if c.keyVersion < 1 || c.keyVersion > MAX_SAFE_INTEGER then Err("key version must be a positive integer")
    else Ok(JoinColons(["legacy-vault", c.organizationId, c.householdId, c.recordId, c.purpose,
                        "v" + Decimal(c.keyVersion)]))
  }

  function EncryptEnvelope(plaintext: seq<Byte>, key: seq<Byte>, c: Context, nonce: nat): Result<EncryptedEnvelope> {
    if |key| != 32 then Err("data encryption key must be exactly 32 bytes")
    else match AssociatedData(c)
      case Err(error) => Err(error)
      case Ok(data) => Ok(EncryptedEnvelope(A256GCM, c.keyVersion, Box(key, data, plaintext, nonce)))
  }

  function DecryptEnvelope(e: EncryptedEnvelope, key: seq<Byte>, c: Context): Result<seq<Byte>> {
    if |key| != 32 then Err("data encryption key must be exactly 32 bytes")
    else if e.algorithm != A256GCM || e.keyVersion != c.keyVersion then
      Err("envelope algorithm or key version mismatch")
    else match AssociatedData(c)
      case Err(_) => Err("envelope authentication failed")
      case Ok(data) =>
        if e.box.key == key && e.box.associatedData == data then Ok(e.box.plaintext)
        else Err("envelope authentication failed")
  }

  predicate NoColon(s: string) {
    forall i :: 0 <= i < |s| ==> s[i] != ':'
  }

  /** The ids are UUIDs; purposes such as `fact-value:contacts.name` do contain colons. */
  predicate PlainIds(c: Context) {
    NoColon(c.organizationId) && NoColon(c.householdId) && NoColon(c.recordId)
  }

  /** The text before the first colon, and the text after the last one. */
  lemma ColonStandsOut(a: string, x: string)
    ensures var s := a + ":" + x;
      && s[|a|] == ':' && s[..|a|] == a && s[|a| + 1..] == x
      && (NoColon(a) ==> forall i :: 0 <= i < |a| ==> s[i] != ':')
      && (NoColon(x) ==> forall i :: |a| < i < |s| ==> s[i] != ':')
  {
    var s := a + ":" + x;
    assert s[..|a|] == a && s[|a| + 1..] == x;
    assert forall i :: |a| < i < |s| ==> s[i] == x[i - |a| - 1];
  }

  lemma FirstColonSplits(a: string, b: string, x: string, y: string)
    requires NoColon(a) && NoColon(b) && a + ":" + x == b + ":" + y
    ensures a == b && x == y
  {
    ColonStandsOut(a, x);
    ColonStandsOut(b, y);
    assert |a| == |b|;
  }

  lemma LastColonSplits(a: string, b: string, x: string, y: string)
    requires NoColon(x) && NoColon(y) && a + ":" + x == b + ":" + y
    ensures a == b && x == y
  {
    ColonStandsOut(a, x);
    ColonStandsOut(b, y);
    assert |a| == |b|;
  }

  lemma {:induction false} JoinedPair(first: string, rest: seq<string>)
    requires rest != []
    ensures JoinColons([first] + rest) == first + ":" + JoinColons(rest)
  {
    assert ([first] + rest)[1..] == rest;
  }

  lemma JoinedContext(c: Context)
    requires AssociatedData(c).Ok?
    ensures AssociatedData(c).value
            == "legacy-vault" + ":" + (c.organizationId + ":" + (c.householdId + ":" + (c.recordId + ":"
               + (c.purpose + ":" + ("v" + Decimal(c.keyVersion))))))
  {
    var version := "v" + Decimal(c.keyVersion);
    var p4 := [c.purpose, version];
    var p3 := [c.recordId] + p4;
    var p2 := [c.householdId] + p3;
    var p1 := [c.organizationId] + p2;
    JoinedPair(c.purpose, [version]);
    assert p4 == [c.purpose] + [version];
    JoinedPair(c.recordId, p4);
    JoinedPair(c.householdId, p3);
    JoinedPair(c.organizationId, p2);
    JoinedPair("legacy-vault", p1);
    assert ["legacy-vault"] + p1
        == ["legacy-vault", c.organizationId, c.householdId, c.recordId, c.purpose, version];
  }

  lemma {:induction false} VersionHasNoColon(n: nat)
    ensures NoColon("v" + Decimal(n))
  {
    ReadUndoesDecimal(n);
  }

  /** The colon-joined text determines the context when the three ids hold no colon. */
  lemma AssociatedDataIsInjective(c: Context, d: Context)
    requires PlainIds(c) && PlainIds(d) && AssociatedData(c).Ok? && AssociatedData(c) == AssociatedData(d)
    ensures c == d
  {
    JoinedContext(c);
    JoinedContext(d);
    var v, w := "v" + Decimal(c.keyVersion), "v" + Decimal(d.keyVersion);
    var c4, d4 := c.purpose + ":" + v, d.purpose + ":" + w;
    var c3, d3 := c.recordId + ":" + c4, d.recordId + ":" + d4;
    var c2, d2 := c.householdId + ":" + c3, d.householdId + ":" + d3;
    var c1, d1 := c.organizationId + ":" + c2, d.organizationId + ":" + d2;
    FirstColonSplits("legacy-vault", "legacy-vault", c1, d1);
    FirstColonSplits(c.organizationId, d.organizationId, c2, d2);
    FirstColonSplits(c.householdId, d.householdId, c3, d3);
    FirstColonSplits(c.recordId, d.recordId, c4, d4);
    VersionHasNoColon(c.keyVersion);
    VersionHasNoColon(d.keyVersion);
    LastColonSplits(c.purpose, d.purpose, v, w);
    assert v[1..] == Decimal(c.keyVersion) && w[1..] == Decimal(d.keyVersion);
    DecimalIsInjective(c.keyVersion, d.keyVersion);
  }

  /** With a colon in a record id two contexts share their associated data. */
  lemma ColonsInIdsCollide(organizationId: string, householdId: string, keyVersion: int)
    requires 1 <= keyVersion <= MAX_SAFE_INTEGER
    ensures var c := Context(organizationId, householdId, "a:b", "c", keyVersion);
      var d := Context(organizationId, householdId, "a", "b:c", keyVersion);
      c != d && AssociatedData(c) == AssociatedData(d)
  {
    var c := Context(organizationId, householdId, "a:b", "c", keyVersion);
    var d := Context(organizationId, householdId, "a", "b:c", keyVersion);
    JoinedContext(c);
    JoinedContext(d);
    var version := "v" + Decimal(keyVersion);
    assert "a:b" + ":" + ("c" + ":" + version) == "a" + ":" + ("b:c" + ":" + version);
    assert c.recordId != d.recordId;
  }

  /** An envelope opens to what was sealed in its own context, and in no other. */
  lemma OpensOnlyInItsContext(plaintext: seq<Byte>, key: seq<Byte>, c: Context, nonce: nat,
                              other: seq<Byte>, d: Context)
    requires PlainIds(c) && PlainIds(d) && EncryptEnvelope(plaintext, key, c, nonce).Ok?
    ensures var plain := DecryptEnvelope(EncryptEnvelope(plaintext, key, c, nonce).value, other, d);
      && (plain.Ok? <==> other == key && d == c)
      && (plain.Ok? ==> plain.value == plaintext)
  {
    if AssociatedData(c) == AssociatedData(d) {
      AssociatedDataIsInjective(c, d);
    }
  }

  /** Any envelope, whoever made it, opens exactly under its own key in the context it names, to what it holds. */
  lemma OpensExactlyWhen(e: EncryptedEnvelope, key: seq<Byte>, c: Context)
    ensures var plain := DecryptEnvelope(e, key, c);
      && (plain.Ok? <==>
            && |key| == 32 && key == e.box.key && e.algorithm == "A256GCM"
            && e.keyVersion == c.keyVersion && 1 <= c.keyVersion <= 9_007_199_254_740_991
            && e.box.associatedData
               == "legacy-vault" + ":" + (c.organizationId + ":" + (c.householdId + ":" + (c.recordId + ":"
                  + (c.purpose + ":" + ("v" + Decimal(c.keyVersion)))))))
      && (plain.Ok? ==> plain.value == e.box.plaintext)
  {
    if AssociatedData(c).Ok? {
      JoinedContext(c);
    }
  }

  /** Sealing fails exactly for a key of another length or a version that is no positive safe integer. */
  lemma SealsExactlyWhen(plaintext: seq<Byte>, key: seq<Byte>, c: Context, nonce: nat)
    ensures var sealed := EncryptEnvelope(plaintext, key, c, nonce);
      && (sealed.Ok? <==> |key| == 32 && 1 <= c.keyVersion <= 9_007_199_254_740_991)
      && (sealed.Ok? ==> sealed.value.keyVersion == c.keyVersion && sealed.value.algorithm == "A256GCM"
                         && DecryptEnvelope(sealed.value, key, c) == Ok(plaintext))
  {
  }

  // ----- household keys -----

  datatype WrappedKey = WrappedKey(envelope: EncryptedEnvelope, keyPurpose: string)

  const HOUSEHOLD_DEK := "household-dek"

  function KeyContext(organizationId: string, householdId: string, keyVersion: int): Context {
    Context(organizationId, householdId, householdId, HOUSEHOLD_DEK, keyVersion)
  }

  /** The generated key and the nonce are the randomness of the source. */
  function WrapHouseholdKey(generated: seq<Byte>, keyEncryptionKey: seq<Byte>, organizationId: string,
                            householdId: string, keyVersion: int, nonce: nat): Result<WrappedKey> {
    match EncryptEnvelope(generated, keyEncryptionKey, KeyContext(organizationId, householdId, keyVersion), nonce)
    case Err(error) => Err(error)
    case Ok(e) => Ok(WrappedKey(e, HOUSEHOLD_DEK))
  }

  function UnwrapHouseholdKey(w: WrappedKey, keyEncryptionKey: seq<Byte>, organizationId: string,
                              householdId: string): Result<seq<Byte>> {
    if w.keyPurpose != HOUSEHOLD_DEK then Err("wrapped key purpose mismatch")
    else DecryptEnvelope(w.envelope, keyEncryptionKey, KeyContext(organizationId, householdId, w.envelope.keyVersion))
  }

  /** A key wrapped for anything but households is refused, whatever its envelope holds. */
  lemma UnwrapsExactlyWhen(w: WrappedKey, keyEncryptionKey: seq<Byte>, organizationId: string, householdId: string)
    ensures UnwrapHouseholdKey(w, keyEncryptionKey, organizationId, householdId).Ok? <==>
      && w.keyPurpose == "household-dek"
      && DecryptEnvelope(w.envelope, keyEncryptionKey,
                         Context(organizationId, householdId, householdId, "household-dek", w.envelope.keyVersion)).Ok?
  {
  }

  /** A wrapped key unwraps under the same key-encryption key for the same household, and for no other. */
  lemma UnwrapUndoesWrap(generated: seq<Byte>, kek: seq<Byte>, organizationId: string, householdId: string,
                         keyVersion: int, nonce: nat, otherOrganization: string, otherHousehold: string)
    requires NoColon(organizationId) && NoColon(householdId) && NoColon(otherOrganization) && NoColon(otherHousehold)
    requires |kek| == 32 && 1 <= keyVersion <= MAX_SAFE_INTEGER
    ensures var w := WrapHouseholdKey(generated, kek, organizationId, householdId, keyVersion, nonce);
      && w.Ok?
      && UnwrapHouseholdKey(w.value, kek, organizationId, householdId) == Ok(generated)
      && (UnwrapHouseholdKey(w.value, kek, otherOrganization, otherHousehold).Ok? <==>
            otherOrganization == organizationId && otherHousehold == householdId)
  {
    var c := KeyContext(organizationId, householdId, keyVersion);
    OpensOnlyInItsContext(generated, kek, c, nonce, kek, c);
    OpensOnlyInItsContext(generated, kek, c, nonce, kek, KeyContext(otherOrganization, otherHousehold, keyVersion));
  }
}

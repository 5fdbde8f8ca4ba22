/**
 `createPortableExport` and `verifyAndOpenPortableExport`. An export opens, with its key and
 its signer, to exactly its entries sorted by path; and bytes of any other origin that open
 with an unforged signature open to those entries too.

 The hash, the signature scheme and the collation are parameters; a sealed box has some
 three base64 strings on the wire.
 */
module PortableExport {
  import opened Prelude
  import opened Numerals
  import opened Json
  import opened JsonRoundTrip
  import opened JsonFields
  import JsonOrder
  import opened Envelope
  import opened ExportEntries
  import Utf8
  import Base64

  datatype Wire = Wire(iv: string, ciphertext: string, authenticationTag: string)

  datatype Primitives = Primitives(
    order: Collation,
    hash: seq<Byte> -> string,
    publicKey: string -> Option<string>,
    sign: (string, seq<Byte>) -> string,
    verify: (seq<Byte>, string, string) -> bool,
    toWire: Box -> Wire,
    fromWire: Wire -> Option<Box>,
    parsesAsTime: string -> bool)

  /** Signatures verify under their own key, and a box is read back from the wire. */
  ghost predicate Correct(p: Primitives) {
    && (forall secret, message :: p.publicKey(secret).Some? ==>
          p.verify(message, p.sign(secret, message), p.publicKey(secret).value))
    && forall box :: p.fromWire(p.toWire(box)) == Some(box)
  }

  datatype Input = Input(archiveId: string, organizationId: string, householdId: string, createdAt: string,
                         keyVersion: int, exportKey: seq<Byte>, signingKey: string, entries: seq<Entry>, nonce: nat)

  const INNER_FORMAT := "legacy-vault-portable-export/v1"
  const OUTER_FORMAT := "legacy-vault-encrypted-export/v1"
  const DUPLICATED := "export entry path is duplicated"

  // ----- building -----

  function EntryValue(p: Primitives, e: Entry): Value {
    Obj([Member("path", Str(e.path)), Member("mediaType", Str(e.mediaType)), Member("sha256", Str(p.hash(e.bytes))),
         Member("size", Number(Decimal(|e.bytes|))), Member("contentBase64", Str(Base64.Encode(e.bytes)))])
  }

  function Paths(entries: seq<Entry>): set<string> {
    set i | 0 <= i < |entries| :: entries[i].path
  }

  /** The entries in input order, tagged with their paths, or what the first bad one throws. */
  function InnerEntries(p: Primitives, entries: seq<Entry>): Result<seq<Member<Value>>> {
    if entries == [] then Ok([])
    else
      var n := |entries| - 1;
      match InnerEntries(p, entries[..n])
      case Err(error) => Err(error)
      case Ok(done) =>
        if EntryProblem(entries[n].path, entries[n].mediaType).Some? then
          Err(EntryProblem(entries[n].path, entries[n].mediaType).value)
        else if entries[n].path in Paths(entries[..n]) then Err(DUPLICATED)
        else Ok(done + [Member(entries[n].path, EntryValue(p, entries[n]))])
  }

  function Values(members: seq<Member<Value>>): seq<Value> {
    if members == [] then [] else [members[0].value] + Values(members[1..])
  }

  function InnerManifest(i: Input, entries: seq<Value>): Value {
    Obj([Member("format", Str(INNER_FORMAT)), Member("archiveId", Str(i.archiveId)),
         Member("organizationId", Str(i.organizationId)), Member("householdId", Str(i.householdId)),
         Member("createdAt", Str(i.createdAt)), Member("entries", Arr(entries))])
  }

  function EnvelopeValue(p: Primitives, e: EncryptedEnvelope): Value
    requires e.keyVersion >= 0
  {
    var wire := p.toWire(e.box);
    Obj([Member("algorithm", Str(e.algorithm)), Member("keyVersion", Number(Decimal(e.keyVersion))),
         Member("iv", Str(wire.iv)), Member("ciphertext", Str(wire.ciphertext)),
         Member("authenticationTag", Str(wire.authenticationTag))])
  }

  function CanonicalBytes(p: Primitives, v: Value): seq<Byte> {
    Utf8.Encode(Print(v, p.order))
  }

  function ExportContext(archiveId: string, keyVersion: int): Context {
    Context("portable-export", "portable-export", archiveId, "portable-export", keyVersion)
  }

  function PublicManifest(p: Primitives, i: Input, envelope: Value): Value
    requires i.keyVersion >= 0
  {
    Obj([Member("format", Str(OUTER_FORMAT)), Member("archiveId", Str(i.archiveId)),
         Member("createdAt", Str(i.createdAt)), Member("encryption", Str(A256GCM)),
         Member("keyVersion", Number(Decimal(i.keyVersion))),
         Member("envelopeSha256", Str(p.hash(CanonicalBytes(p, envelope))))])
  }

  function Container(p: Primitives, i: Input, manifest: Value, envelope: Value, signer: string): Value {
    Obj([Member("manifest", manifest), Member("envelope", envelope),
         Member("signature", Str(p.sign(i.signingKey, CanonicalBytes(p, manifest)))),
         Member("signerPublicKey", Str(signer))])
  }

  function SortedInner(p: Primitives, i: Input, entries: seq<Member<Value>>): Value {
    InnerManifest(i, Values(Sort(entries, p.order)))
  }

  function SealedInner(p: Primitives, i: Input, entries: seq<Member<Value>>): (r: Result<EncryptedEnvelope>)
    ensures r.Ok? ==> r.value.keyVersion == i.keyVersion >= 1
  {
    EncryptEnvelope(CanonicalBytes(p, SortedInner(p, i, entries)), i.exportKey,
                    ExportContext(i.archiveId, i.keyVersion), i.nonce)
  }

  /** The whole of `createPortableExport`. */
  function Export(p: Primitives, i: Input): Result<Value> {
    if i.archiveId == "" || i.organizationId == "" || i.householdId == "" then Err("export identity is incomplete")
    else if !p.parsesAsTime(i.createdAt) then Err("export creation time is invalid")
    else match InnerEntries(p, i.entries)
      case Err(error) => Err(error)
      case Ok(entries) => Assemble(p, i, entries)
  }

  function Assemble(p: Primitives, i: Input, entries: seq<Member<Value>>): Result<Value> {
    match SealedInner(p, i, entries)
    case Err(error) => Err(error)
    case Ok(sealed) =>
      var envelope := EnvelopeValue(p, sealed);
      match p.publicKey(i.signingKey)
      case None => Err("export signing key must be an Ed25519 PKCS8 DER value encoded as base64")
      case Some(signer) => Ok(Container(p, i, PublicManifest(p, i, envelope), envelope, signer))
  }

  method CreatePortableExport(p: Primitives, i: Input) returns (container: Result<seq<Byte>>)
    ensures container == (match Export(p, i) case Ok(v) => Ok(CanonicalBytes(p, v)) case Err(error) => Err(error))
  {
    if i.archiveId == "" || i.organizationId == "" || i.householdId == "" {
      return Err("export identity is incomplete");
    }
    if !p.parsesAsTime(i.createdAt) {
      return Err("export creation time is invalid");
    }
    var entries := CheckInputEntries(p, i.entries);
    if entries.Err? {
      return Err(entries.error);
    }
    var sealed := SealedInner(p, i, entries.value);
    if sealed.Err? {
      return Err(sealed.error);
    }
    var envelope := EnvelopeValue(p, sealed.value);
    var manifest := PublicManifest(p, i, envelope);
    var signer := p.publicKey(i.signingKey);
    if signer.None? {
      return Err("export signing key must be an Ed25519 PKCS8 DER value encoded as base64");
    }
    container := Ok(CanonicalBytes(p, Container(p, i, manifest, envelope, signer.value)));
  }

  /** The mapping callback, which fills the set of paths as it goes. */
  method CheckInputEntries(p: Primitives, entries: seq<Entry>) returns (checked: Result<seq<Member<Value>>>)
    ensures checked == InnerEntries(p, entries)
  {
    var paths: set<string> := {};
    var done: seq<Member<Value>> := [];
    for n := 0 to |entries|
      invariant paths == Paths(entries[..n])
      invariant InnerEntries(p, entries[..n]) == Ok(done)
    {
      var entry := entries[n];
      assert entries[..n + 1][..n] == entries[..n];
      var problem := EntryProblem(entry.path, entry.mediaType);
      if problem.Some? {
        FirstErrorStands(p, entries, n + 1);
        return Err(problem.value);
      }
      if entry.path in paths {
        FirstErrorStands(p, entries, n + 1);
        return Err(DUPLICATED);
      }
      paths := paths + {entry.path};
      PathsGrow(entries, n);
      done := done + [Member(entry.path, EntryValue(p, entry))];
    }
    assert entries[..|entries|] == entries;
    checked := Ok(done);
  }

  lemma PathsGrow(entries: seq<Entry>, n: nat)
    requires n < |entries|
    ensures Paths(entries[..n + 1]) == Paths(entries[..n]) + {entries[n].path}
  {
    forall path ensures path in Paths(entries[..n + 1]) <==> path in Paths(entries[..n]) + {entries[n].path} {
      if path in Paths(entries[..n]) {
        var k :| 0 <= k < n && entries[..n][k].path == path;
        assert entries[..n + 1][k].path == path;
      }
      if path == entries[n].path {
        assert entries[..n + 1][n].path == path;
      }
    }
  }

  lemma {:induction false} FirstErrorStands(p: Primitives, entries: seq<Entry>, n: nat)
    requires n <= |entries| && InnerEntries(p, entries[..n]).Err?
    ensures InnerEntries(p, entries) == InnerEntries(p, entries[..n])
    decreases |entries|
  {
    if n == |entries| {
      assert entries[..n] == entries;
    } else {
      assert entries[..|entries| - 1][..n] == entries[..n];
      FirstErrorStands(p, entries[..|entries| - 1], n);
    }
  }

  // ----- opening -----

  const TYPE_ERROR := "TypeError"

  function Text(v: Option<Value>): string {
    if v.Some? && v.value.Str? then v.value.text else ""
  }

  /** What one entry of the payload makes the loop throw; `seen` holds the paths before it. */
  function ItemProblem(p: Primitives, item: Value, seen: set<string>): Option<string> {
    var path, mediaType := Text(Field(Some(item), "path")), Text(Field(Some(item), "mediaType"));
    var encoded := Field(Some(item), "contentBase64");
    if item.Null? then Some(TYPE_ERROR)
    else if EntryProblem(path, mediaType).Some? then EntryProblem(path, mediaType)
    else if path in seen then Some("export payload path is duplicated")
    else if encoded.None? || !encoded.value.Str? then Some(TYPE_ERROR)
    else
      var content := Base64.Decode(encoded.value.text);
      if || Field(Some(item), "size") != Some(Number(Decimal(|content|)))
         || Field(Some(item), "sha256") != Some(Str(p.hash(content)))
      then Some("export entry digest is invalid")
      else None
  }

  /** The paths of the items, or what the first bad one throws. */
  function CheckItems(p: Primitives, items: seq<Value>): Result<set<string>> {
    if items == [] then Ok({})
    else
      var n := |items| - 1;
      match CheckItems(p, items[..n])
      case Err(error) => Err(error)
      case Ok(seen) =>
        var problem := ItemProblem(p, items[n], seen);
        if problem.Some? then Err(problem.value) else Ok(seen + {Text(Field(Some(items[n]), "path"))})
  }

  predicate MetadataIsValid(c: Value, trusted: string) {
    var manifest, envelope := Field(Some(c), "manifest"), Field(Some(c), "envelope");
    && Field(manifest, "format") == Some(Str(OUTER_FORMAT))
    && Field(envelope, "algorithm") == Some(Str(A256GCM))
    && Field(manifest, "encryption") == Some(Str(A256GCM))
    && StrictlyEqual(Field(manifest, "keyVersion"), Field(envelope, "keyVersion"))
    && Field(Some(c), "signerPublicKey") == Some(Str(trusted))
  }

  /** `ExportManifestSigner.verify`, false for a signature that is not a text. */
  predicate SignatureHolds(p: Primitives, manifest: Value, signature: Option<Value>, trusted: string) {
    signature.Some? && signature.value.Str?
    && p.verify(CanonicalBytes(p, manifest), signature.value.text, trusted)
  }

  predicate IsText(v: Option<Value>) {
    v.Some? && v.value.Str?
  }

  predicate IsWhole(v: Option<Value>) {
    v.Some? && v.value.Number? && Decimal(Read(v.value.numeral)) == v.value.numeral
  }

  /** Decryption and parsing of the payload; any throw in it is one error. */
  function Decrypted(p: Primitives, manifest: Option<Value>, envelope: Option<Value>, key: seq<Byte>): Option<Value> {
    var archiveId, keyVersion := Field(manifest, "archiveId"), Field(manifest, "keyVersion");
    var iv, ciphertext := Field(envelope, "iv"), Field(envelope, "ciphertext");
    var tag := Field(envelope, "authenticationTag");
    if !IsText(archiveId) || !IsWhole(keyVersion) || !IsText(iv) || !IsText(ciphertext) || !IsText(tag) then None
    else
      var box := p.fromWire(Wire(iv.value.text, ciphertext.value.text, tag.value.text));
      var version := Read(keyVersion.value.numeral);
      if box.None? then None
      else match DecryptEnvelope(EncryptedEnvelope(A256GCM, version, box.value), key,
                                 ExportContext(archiveId.value.text, version))
        case Err(_) => None
        case Ok(plaintext) => Parse(Utf8.Decode(plaintext))
  }

  predicate PayloadMatches(inner: Value, manifest: Option<Value>) {
    && Field(Some(inner), "format") == Some(Str(INNER_FORMAT))
    && StrictlyEqual(Field(Some(inner), "archiveId"), Field(manifest, "archiveId"))
    && StrictlyEqual(Field(Some(inner), "createdAt"), Field(manifest, "createdAt"))
    && Field(Some(inner), "entries").Some? && Field(Some(inner), "entries").value.Arr?
  }

  function Items(inner: Value): seq<Value> {
    var entries := Field(Some(inner), "entries");
    if entries.Some? && entries.value.Arr? then entries.value.items else []
  }

  function CheckInner(p: Primitives, inner: Value, manifest: Option<Value>): Result<Value> {
    if inner.Null? then Err(TYPE_ERROR)
    else if !PayloadMatches(inner, manifest) then Err("export payload manifest is invalid")
    else match CheckItems(p, Items(inner))
      case Err(error) => Err(error)
      case Ok(_) => Ok(inner)
  }

  function OpenParsed(p: Primitives, c: Value, key: seq<Byte>, trusted: string): Result<Value> {
    var manifest, envelope := Field(Some(c), "manifest"), Field(Some(c), "envelope");
    if c.Null? then Err(TYPE_ERROR)
    else if !MetadataIsValid(c, trusted) then Err("export container metadata is invalid")
    else if Field(manifest, "envelopeSha256") != Some(Str(p.hash(CanonicalBytes(p, envelope.value)))) then
      Err("export envelope digest is invalid")
    else if !SignatureHolds(p, manifest.value, Field(Some(c), "signature"), trusted) then
      Err("export manifest signature is invalid")
    else match Decrypted(p, manifest, envelope, key)
      case None => Err("export decryption failed")
      case Some(inner) => CheckInner(p, inner, manifest)
  }

  /** The whole of `verifyAndOpenPortableExport`. */
  function Open(p: Primitives, container: seq<Byte>, key: seq<Byte>, trusted: string): Result<Value> {
    match Parse(Utf8.Decode(container))
    case None => Err("export container is invalid")
    case Some(c) => OpenParsed(p, c, key, trusted)
  }

  method VerifyAndOpenPortableExport(p: Primitives, container: seq<Byte>, key: seq<Byte>, trusted: string)
    returns (inner: Result<Value>)
    ensures inner == Open(p, container, key, trusted)
  {
    var parsed := Parse(Utf8.Decode(container));
    if parsed.None? {
      return Err("export container is invalid");
    }
    var c := parsed.value;
    if c.Null? {
      return Err(TYPE_ERROR);
    }
    if !MetadataIsValid(c, trusted) {
      return Err("export container metadata is invalid");
    }
    var manifest, envelope := Field(parsed, "manifest"), Field(parsed, "envelope");
    var envelopeDigest := p.hash(CanonicalBytes(p, envelope.value));
    if Field(manifest, "envelopeSha256") != Some(Str(envelopeDigest)) {
      return Err("export envelope digest is invalid");
    }
    if !SignatureHolds(p, manifest.value, Field(parsed, "signature"), trusted) {
      return Err("export manifest signature is invalid");
    }
    var payload := Decrypted(p, manifest, envelope, key);
    if payload.None? {
      return Err("export decryption failed");
    }
    if payload.value.Null? {
      return Err(TYPE_ERROR);
    }
    if !PayloadMatches(payload.value, manifest) {
      return Err("export payload manifest is invalid");
    }
    var problem := CheckPayloadItems(p, Items(payload.value));
    inner := if problem.Some? then Err(problem.value) else Ok(payload.value);
  }

  /** The loop over the payload's entries. */
  method CheckPayloadItems(p: Primitives, items: seq<Value>) returns (problem: Option<string>)
    ensures problem == (match CheckItems(p, items) case Ok(_) => None case Err(error) => Some(error))
  {
    var seen: set<string> := {};
    for n := 0 to |items|
      invariant CheckItems(p, items[..n]) == Ok(seen)
    {
      assert items[..n + 1][..n] == items[..n];
      problem := ItemProblem(p, items[n], seen);
      if problem.Some? {
        FirstProblemStands(p, items, n + 1);
        return;
      }
      seen := seen + {Text(Field(Some(items[n]), "path"))};
    }
    assert items[..|items|] == items;
    problem := None;
  }

  lemma {:induction false} FirstProblemStands(p: Primitives, items: seq<Value>, n: nat)
    requires n <= |items| && CheckItems(p, items[..n]).Err?
    ensures CheckItems(p, items) == CheckItems(p, items[..n])
    decreases |items|
  {
    if n == |items| {
      assert items[..n] == items;
    } else {
      assert items[..|items| - 1][..n] == items[..n];
      FirstProblemStands(p, items[..|items| - 1], n);
    }
  }
}

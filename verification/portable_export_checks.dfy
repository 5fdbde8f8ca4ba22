/**
 What `verifyAndOpenPortableExport` accepts, whoever made the bytes: exactly the containers
 whose metadata, digest and signature hold, and whose payload decrypts to a manifest of the
 same archive with good entries at different paths. Nothing is decrypted before that holds.
 */
module PortableExportChecks {
  import opened Prelude
  import opened Numerals
  import opened Json
  import opened JsonFields
  import opened Envelope
  import opened ExportEntries
  import opened PortableExport
  import Utf8
  import Base64

  /** The text a member holds, if it is one. */
  function TextAt(v: Value, key: string): Option<string> {
    match Field(Some(v), key)
    case Some(Str(text)) => Some(text)
    case _ => None
  }

  // ----- the entries of a payload -----

  /** A safe path, a media type, and base64 content whose size and digest are the ones named. */
  predicate IsGoodItem(p: Primitives, item: Value) {
    var path, mediaType, encoded := TextAt(item, "path"), TextAt(item, "mediaType"), TextAt(item, "contentBase64");
    && path.Some? && PathIsSafe(path.value)
    && mediaType.Some? && MediaTypeIsValid(mediaType.value)
    && encoded.Some?
    && var content := Base64.Decode(encoded.value);
       && Field(Some(item), "size") == Some(Number(Decimal(|content|)))
       && TextAt(item, "sha256") == Some(p.hash(content))
  }

  predicate PathsDiffer(items: seq<Value>) {
    forall i, j :: 0 <= i < j < |items| ==> TextAt(items[i], "path") != TextAt(items[j], "path")
  }

  predicate AreGoodItems(p: Primitives, items: seq<Value>) {
    (forall i :: 0 <= i < |items| ==> IsGoodItem(p, items[i])) && PathsDiffer(items)
  }

  lemma EmptyTextsAreRefused()
    ensures !PathIsSafe("") && !MediaTypeIsValid("")
  {
  }

  lemma ItemPassesExactlyWhen(p: Primitives, item: Value, seen: set<string>)
    ensures ItemProblem(p, item, seen).None? <==>
      IsGoodItem(p, item) && TextAt(item, "path").value !in seen
  {
    EmptyTextsAreRefused();
  }

  function ItemPaths(items: seq<Value>): set<string> {
    set i | 0 <= i < |items| && TextAt(items[i], "path").Some? :: TextAt(items[i], "path").value
  }

  lemma GoodItemsGrow(p: Primitives, before: seq<Value>, item: Value)
    ensures AreGoodItems(p, before + [item]) <==>
      AreGoodItems(p, before) && IsGoodItem(p, item) && TextAt(item, "path").value !in ItemPaths(before)
  {
    var items := before + [item];
    assert items[|before|] == item;
    assert forall i :: 0 <= i < |before| ==> items[i] == before[i];
    if AreGoodItems(p, before) && IsGoodItem(p, item) {
      if TextAt(item, "path").value in ItemPaths(before) {
        var i :| 0 <= i < |before| && TextAt(before[i], "path") == TextAt(item, "path");
        assert TextAt(items[i], "path") == TextAt(items[|before|], "path");
      } else {
        forall i | 0 <= i < |before| ensures TextAt(before[i], "path") != TextAt(item, "path") {
          assert IsGoodItem(p, before[i]);
          assert TextAt(before[i], "path").value in ItemPaths(before);
        }
      }
    }
  }

  lemma PathsOfLonger(before: seq<Value>, item: Value)
    requires TextAt(item, "path").Some?
    ensures ItemPaths(before + [item]) == ItemPaths(before) + {TextAt(item, "path").value}
  {
    var items := before + [item];
    forall path ensures path in ItemPaths(items) <==> path in ItemPaths(before) + {TextAt(item, "path").value} {
      if path in ItemPaths(before) {
        var i :| 0 <= i < |before| && TextAt(before[i], "path") == Some(path);
        assert TextAt(items[i], "path") == Some(path);
      }
      if path == TextAt(item, "path").value {
        assert TextAt(items[|before|], "path") == Some(path);
      }
    }
  }

  lemma {:induction false} ItemsPassExactlyWhen(p: Primitives, items: seq<Value>)
    ensures CheckItems(p, items).Ok? <==> AreGoodItems(p, items)
    ensures CheckItems(p, items).Ok? ==> CheckItems(p, items).value == ItemPaths(items)
    decreases |items|
  {
    if items != [] {
      var before, item := items[..|items| - 1], items[|items| - 1];
      ItemsPassExactlyWhen(p, before);
      assert items == before + [item];
      GoodItemsGrow(p, before, item);
      ItemPassesExactlyWhen(p, item, ItemPaths(before));
      if IsGoodItem(p, item) {
        PathsOfLonger(before, item);
      }
    }
  }

  // ----- the container before decryption -----

  /** Format, cipher, key version, signer, digest of the envelope and signature of the manifest are all right. */
  predicate IsAuthentic(p: Primitives, c: Value, trusted: string) {
    var manifest, envelope, signature := Field(Some(c), "manifest"), Field(Some(c), "envelope"), TextAt(c, "signature");
    && manifest.Some? && envelope.Some? && signature.Some?
    && TextAt(manifest.value, "format") == Some("legacy-vault-encrypted-export/v1")
    && TextAt(manifest.value, "encryption") == Some("A256GCM") && TextAt(envelope.value, "algorithm") == Some("A256GCM")
    && StrictlyEqual(Field(manifest, "keyVersion"), Field(envelope, "keyVersion"))
    && TextAt(c, "signerPublicKey") == Some(trusted)
    && TextAt(manifest.value, "envelopeSha256") == Some(p.hash(Utf8.Encode(Print(envelope.value, p.order))))
    && p.verify(Utf8.Encode(Print(manifest.value, p.order)), signature.value, trusted)
  }

  /** What the container holds of its payload: the parsed plaintext, if the key and the named context open the box. */
  function Payload(p: Primitives, c: Value, key: seq<Byte>): Option<Value> {
    Decrypted(p, Field(Some(c), "manifest"), Field(Some(c), "envelope"), key)
  }

  /** The payload is a manifest of the same archive and time, with good entries. */
  predicate IsGoodPayload(p: Primitives, inner: Value, manifest: Value) {
    && TextAt(inner, "format") == Some("legacy-vault-portable-export/v1")
    && StrictlyEqual(Field(Some(inner), "archiveId"), Field(Some(manifest), "archiveId"))
    && StrictlyEqual(Field(Some(inner), "createdAt"), Field(Some(manifest), "createdAt"))
    && Field(Some(inner), "entries").Some? && Field(Some(inner), "entries").value.Arr?
    && AreGoodItems(p, Field(Some(inner), "entries").value.items)
  }

  predicate PassesChecks(p: Primitives, c: Value, trusted: string) {
    var manifest, envelope := Field(Some(c), "manifest"), Field(Some(c), "envelope");
    && MetadataIsValid(c, trusted)
    && Field(manifest, "envelopeSha256") == Some(Str(p.hash(CanonicalBytes(p, envelope.value))))
    && SignatureHolds(p, manifest.value, Field(Some(c), "signature"), trusted)
  }

  lemma AuthenticMeansAllChecks(p: Primitives, c: Value, trusted: string)
    ensures PassesChecks(p, c, trusted) <==> IsAuthentic(p, c, trusted)
  {
  }

  lemma OthersAreRefused(p: Primitives, c: Value, key: seq<Byte>, trusted: string)
    requires !IsAuthentic(p, c, trusted)
    ensures OpenParsed(p, c, key, trusted).Err? && OpenParsed(p, c, key, trusted) == OpenParsed(p, c, [], trusted)
  {
    AuthenticMeansAllChecks(p, c, trusted);
  }

  lemma AuthenticPayloadDecides(p: Primitives, c: Value, key: seq<Byte>, trusted: string)
    requires IsAuthentic(p, c, trusted)
    ensures OpenParsed(p, c, key, trusted)
         == match Payload(p, c, key)
            case None => Err("export decryption failed")
            case Some(inner) => CheckInner(p, inner, Field(Some(c), "manifest"))
  {
  }

  lemma PayloadPassesExactlyWhen(p: Primitives, inner: Value, manifest: Option<Value>)
    requires manifest.Some?
    ensures CheckInner(p, inner, manifest).Ok? <==> IsGoodPayload(p, inner, manifest.value)
    ensures CheckInner(p, inner, manifest).Ok? ==> CheckInner(p, inner, manifest).value == inner
  {
    ItemsPassExactlyWhen(p, Items(inner));
  }

  /**
   Any bytes open exactly if they parse to an authentic container whose payload, under the
   key, is good; and what opens is that payload.
   */
  lemma {:induction false} OpensExactlyWhen(p: Primitives, container: seq<Byte>, key: seq<Byte>, trusted: string)
    ensures var parsed := Parse(Utf8.Decode(container));
      var r := Open(p, container, key, trusted);
      && (r.Ok? <==>
            && parsed.Some? && IsAuthentic(p, parsed.value, trusted)
            && Payload(p, parsed.value, key).Some?
            && IsGoodPayload(p, Payload(p, parsed.value, key).value, Field(parsed, "manifest").value))
      && (r.Ok? ==> Payload(p, parsed.value, key) == Some(r.value))
  {
    var parsed := Parse(Utf8.Decode(container));
    if parsed.Some? {
      if IsAuthentic(p, parsed.value, trusted) {
        AuthenticPayloadDecides(p, parsed.value, key, trusted);
        if Payload(p, parsed.value, key).Some? {
          PayloadPassesExactlyWhen(p, Payload(p, parsed.value, key).value, Field(parsed, "manifest"));
        }
      } else {
        OthersAreRefused(p, parsed.value, key, trusted);
      }
    }
  }

  /** Nothing is decrypted before the signature holds: without it every key gets the same answer, an error. */
  lemma {:induction false} NothingUnsignedIsDecrypted(p: Primitives, container: seq<Byte>, key: seq<Byte>, other: seq<Byte>, trusted: string)
    requires var parsed := Parse(Utf8.Decode(container)); parsed.None? || !IsAuthentic(p, parsed.value, trusted)
    ensures Open(p, container, key, trusted).Err?
    ensures Open(p, container, key, trusted) == Open(p, container, other, trusted)
  {
    var parsed := Parse(Utf8.Decode(container));
    if parsed.Some? {
      OthersAreRefused(p, parsed.value, key, trusted);
      OthersAreRefused(p, parsed.value, other, trusted);
    }
  }

  // ----- the box -----

  /** The box the envelope's three texts stand for, and the context the manifest names. */
  predicate BoxIs(p: Primitives, c: Value, box: Box, archiveId: string, version: nat) {
    var manifest, envelope := Field(Some(c), "manifest"), Field(Some(c), "envelope");
    && manifest.Some? && envelope.Some?
    && TextAt(manifest.value, "archiveId") == Some(archiveId)
    && Field(manifest, "keyVersion") == Some(Number(Decimal(version)))
    && TextAt(envelope.value, "iv").Some? && TextAt(envelope.value, "ciphertext").Some?
    && TextAt(envelope.value, "authenticationTag").Some?
    && p.fromWire(Wire(TextAt(envelope.value, "iv").value, TextAt(envelope.value, "ciphertext").value,
                       TextAt(envelope.value, "authenticationTag").value)) == Some(box)
  }

  /** The payload is what the box was sealed over, under its key and for this archive, if that parses. */
  lemma {:induction false} PayloadIsInTheBox(p: Primitives, c: Value, key: seq<Byte>, box: Box, archiveId: string, version: nat)
    requires BoxIs(p, c, box, archiveId, version)
    ensures Payload(p, c, key)
         == if |key| == 32 && key == box.key && 1 <= version <= 9_007_199_254_740_991
               && box.associatedData
                  == "legacy-vault" + ":" + ("portable-export" + ":" + ("portable-export" + ":" + (archiveId + ":"
                     + ("portable-export" + ":" + ("v" + Decimal(version))))))
            then Parse(Utf8.Decode(box.plaintext)) else None
  {
    ReadUndoesDecimal(version);
    Envelope.OpensExactlyWhen(EncryptedEnvelope(A256GCM, version, box), key,
                              Context("portable-export", "portable-export", archiveId, "portable-export", version));
  }
}

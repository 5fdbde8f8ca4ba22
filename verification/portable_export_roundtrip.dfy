/** What was exported opens again, and nothing else does. */
module PortableExportRoundTrip {
  import opened Prelude
  import opened Numerals
  import opened Json
  import opened JsonRoundTrip
  import opened JsonFields
  import opened Envelope
  import opened ExportEntries
  import opened PortableExport
  import JsonOrder
  import Utf8
  import Base64
  import Hex

  // ----- the entries, sorted by path -----

  function InsertByPath(e: Entry, sorted: seq<Entry>, order: Collation): seq<Entry> {
    if sorted == [] || order(e.path) <= order(sorted[0].path) then [e] + sorted
    else [sorted[0]] + InsertByPath(e, sorted[1..], order)
  }

  /** The entries in the order the export stores them. */
  function SortedByPath(entries: seq<Entry>, order: Collation): seq<Entry> {
    if entries == [] then [] else InsertByPath(entries[0], SortedByPath(entries[1..], order), order)
  }

  predicate PathsAscend(entries: seq<Entry>, order: Collation) {
    forall i, j :: 0 <= i < j < |entries| ==> order(entries[i].path) <= order(entries[j].path)
  }

  lemma {:induction false} InsertByPathKeeps(e: Entry, sorted: seq<Entry>, order: Collation)
    ensures multiset(InsertByPath(e, sorted, order)) == multiset{e} + multiset(sorted)
    decreases |sorted|
  {
    if sorted != [] && order(e.path) > order(sorted[0].path) {
      InsertByPathKeeps(e, sorted[1..], order);
      assert sorted == [sorted[0]] + sorted[1..];
    }
  }

  predicate NoneBefore(first: Entry, entries: seq<Entry>, order: Collation) {
    forall i :: 0 <= i < |entries| ==> order(first.path) <= order(entries[i].path)
  }

  lemma {:induction false} InsertByPathAscends(e: Entry, sorted: seq<Entry>, order: Collation)
    requires PathsAscend(sorted, order)
    ensures PathsAscend(InsertByPath(e, sorted, order), order)
    ensures forall first :: NoneBefore(first, sorted, order) && order(first.path) <= order(e.path) ==>
              NoneBefore(first, InsertByPath(e, sorted, order), order)
    decreases |sorted|
  {
    if sorted != [] && order(e.path) > order(sorted[0].path) {
      InsertByPathAscends(e, sorted[1..], order);
      assert NoneBefore(sorted[0], sorted[1..], order);
      forall first | NoneBefore(first, sorted, order) && order(first.path) <= order(e.path)
        ensures NoneBefore(first, InsertByPath(e, sorted, order), order)
      {
        assert NoneBefore(first, sorted[1..], order);
      }
    }
  }

  /** Nothing is lost, nothing is added, and the paths ascend. */
  lemma {:induction false} SortedByPathSorts(entries: seq<Entry>, order: Collation)
    ensures PathsAscend(SortedByPath(entries, order), order)
    ensures multiset(SortedByPath(entries, order)) == multiset(entries)
    decreases |entries|
  {
    if entries != [] {
      SortedByPathSorts(entries[1..], order);
      InsertByPathAscends(entries[0], SortedByPath(entries[1..], order), order);
      InsertByPathKeeps(entries[0], SortedByPath(entries[1..], order), order);
      assert entries == [entries[0]] + entries[1..];
    }
  }

  function Tagged(p: Primitives, entries: seq<Entry>): seq<Member<Value>> {
    seq(|entries|, i requires 0 <= i < |entries| => Member(entries[i].path, EntryValue(p, entries[i])))
  }

  lemma TaggedParts(p: Primitives, e: Entry, entries: seq<Entry>)
    ensures Tagged(p, [e] + entries) == [Member(e.path, EntryValue(p, e))] + Tagged(p, entries)
    ensures Tagged(p, entries + [e]) == Tagged(p, entries) + [Member(e.path, EntryValue(p, e))]
  {
  }

  lemma {:induction false} InsertTagged(p: Primitives, e: Entry, sorted: seq<Entry>)
    ensures Insert(Member(e.path, EntryValue(p, e)), Tagged(p, sorted), p.order)
         == Tagged(p, InsertByPath(e, sorted, p.order))
    decreases |sorted|
  {
    TaggedParts(p, e, sorted);
    if sorted != [] && p.order(e.path) > p.order(sorted[0].path) {
      InsertTagged(p, e, sorted[1..]);
      assert sorted == [sorted[0]] + sorted[1..];
      TaggedParts(p, sorted[0], sorted[1..]);
      TaggedParts(p, sorted[0], InsertByPath(e, sorted[1..], p.order));
      assert Tagged(p, sorted)[1..] == Tagged(p, sorted[1..]);
    }
  }

  lemma {:induction false} SortTagged(p: Primitives, entries: seq<Entry>)
    ensures Sort(Tagged(p, entries), p.order) == Tagged(p, SortedByPath(entries, p.order))
    decreases |entries|
  {
    if entries != [] {
      SortTagged(p, entries[1..]);
      assert Tagged(p, entries)[1..] == Tagged(p, entries[1..]);
      InsertTagged(p, entries[0], SortedByPath(entries[1..], p.order));
    }
  }

  predicate EntriesAreSafe(entries: seq<Entry>) {
    forall i :: 0 <= i < |entries| ==> EntryProblem(entries[i].path, entries[i].mediaType).None?
  }

  predicate PathsDiffer(entries: seq<Entry>) {
    forall i, j :: 0 <= i < j < |entries| ==> entries[i].path != entries[j].path
  }

  lemma SafetyGrows(before: seq<Entry>, e: Entry)
    ensures EntriesAreSafe(before + [e]) <==> EntriesAreSafe(before) && EntryProblem(e.path, e.mediaType).None?
  {
    var entries := before + [e];
    assert entries[|before|] == e;
    assert forall i :: 0 <= i < |before| ==> entries[i] == before[i];
  }

  lemma PathsDifferGrows(before: seq<Entry>, e: Entry)
    ensures PathsDiffer(before + [e]) <==> PathsDiffer(before) && e.path !in Paths(before)
  {
    var entries := before + [e];
    assert entries[|before|] == e;
    assert forall i :: 0 <= i < |before| ==> entries[i] == before[i];
    if e.path in Paths(before) {
      var k :| 0 <= k < |before| && before[k].path == e.path;
      assert entries[k].path == entries[|before|].path;
    } else {
      forall k | 0 <= k < |before| ensures before[k].path != e.path {
        assert before[k].path in Paths(before);
      }
    }
  }

  /** The mapping callback throws nothing exactly when every entry is safe and no path repeats. */
  lemma {:induction false} EntriesAreAccepted(p: Primitives, entries: seq<Entry>)
    ensures InnerEntries(p, entries).Ok? <==> EntriesAreSafe(entries) && PathsDiffer(entries)
    ensures InnerEntries(p, entries).Ok? ==> InnerEntries(p, entries).value == Tagged(p, entries)
    decreases |entries|
  {
    if entries != [] {
      var n := |entries| - 1;
      EntriesAreAccepted(p, entries[..n]);
      assert entries == entries[..n] + [entries[n]];
      SafetyGrows(entries[..n], entries[n]);
      PathsDifferGrows(entries[..n], entries[n]);
      TaggedParts(p, entries[n], entries[..n]);
    }
  }

  /** Exporting succeeds exactly on these inputs. */
  lemma ExportSucceedsExactlyWhen(p: Primitives, i: Input)
    ensures Export(p, i).Ok? <==>
      && i.archiveId != "" && i.organizationId != "" && i.householdId != "" && p.parsesAsTime(i.createdAt)
      && EntriesAreSafe(i.entries) && PathsDiffer(i.entries)
      && |i.exportKey| == 32 && 1 <= i.keyVersion <= MAX_SAFE_INTEGER && p.publicKey(i.signingKey).Some?
  {
    EntriesAreAccepted(p, i.entries);
  }

  // ----- canonical bytes survive a parse -----

  lemma {:induction false} BytesParseBack(p: Primitives, v: Value)
    requires WellFormed(v)
    ensures Parse(Utf8.Decode(CanonicalBytes(p, v))) == Some(Sorted(v, p.order))
    ensures CanonicalBytes(p, Sorted(v, p.order)) == CanonicalBytes(p, v)
  {
    Utf8.DecodeUndoesEncode(Print(v, p.order));
    ParseUndoesPrint(v, p.order);
    JsonOrder.PrintIsStableUnderParse(v, p.order);
  }

  /** Reading a member of a parsed value gives the sorted member. */
  lemma {:induction false} ReadsBack(v: Value, k: nat, order: Collation)
    requires WellFormed(v) && v.Obj? && k < |v.members|
    ensures Field(Some(Sorted(v, order)), v.members[k].key) == Some(Sorted(v.members[k].value, order))
  {
    LookupOfMember(v.members, k);
    FieldOfSorted(v, v.members[k].key, order);
  }

  // ----- one entry -----

  lemma EntryIsWellFormed(p: Primitives, e: Entry)
    ensures WellFormed(EntryValue(p, e))
  {
    DecimalIsNumeral(|e.bytes|);
    var m := EntryValue(p, e).members;
    MembersWellFormedAt(m);
  }

  lemma EntryReadsBack(p: Primitives, e: Entry)
    ensures var item := Some(Sorted(EntryValue(p, e), p.order));
      && item.value.Obj?
      && Field(item, "path") == Some(Str(e.path)) && Field(item, "mediaType") == Some(Str(e.mediaType))
      && Field(item, "sha256") == Some(Str(p.hash(e.bytes)))
      && Field(item, "size") == Some(Number(Decimal(|e.bytes|)))
      && Field(item, "contentBase64") == Some(Str(Base64.Encode(e.bytes)))
  {
    EntryIsWellFormed(p, e);
    var v := EntryValue(p, e);
    ReadsBack(v, 0, p.order);
    ReadsBack(v, 1, p.order);
    ReadsBack(v, 2, p.order);
    ReadsBack(v, 3, p.order);
    ReadsBack(v, 4, p.order);
  }

  lemma StoredEntryHasNoProblem(p: Primitives, e: Entry, seen: set<string>)
    requires EntryProblem(e.path, e.mediaType).None? && e.path !in seen
    ensures ItemProblem(p, Sorted(EntryValue(p, e), p.order), seen).None?
  {
    EntryReadsBack(p, e);
    Base64.DecodeUndoesEncode(e.bytes);
  }

  // ----- the payload -----

  function StoredItems(p: Primitives, entries: seq<Entry>): seq<Value> {
    seq(|entries|, i requires 0 <= i < |entries| => Sorted(EntryValue(p, entries[i]), p.order))
  }

  lemma {:induction false} StoredItemsAreSorted(p: Primitives, entries: seq<Entry>)
    ensures SortedItems(Values(Tagged(p, entries)), p.order) == StoredItems(p, entries)
    ensures AllWellFormed(Values(Tagged(p, entries)))
    decreases |entries|
  {
    if entries != [] {
      StoredItemsAreSorted(p, entries[1..]);
      EntryIsWellFormed(p, entries[0]);
      FirstValue(p, entries);
      SortedItemsOfCons(EntryValue(p, entries[0]), Values(Tagged(p, entries[1..])), p.order);
      StoredItemsOfCons(p, entries);
    }
  }

  lemma FirstValue(p: Primitives, entries: seq<Entry>)
    requires entries != []
    ensures Values(Tagged(p, entries)) == [EntryValue(p, entries[0])] + Values(Tagged(p, entries[1..]))
  {
    TaggedParts(p, entries[0], entries[1..]);
    assert entries == [entries[0]] + entries[1..];
    ValuesOfCons(Member(entries[0].path, EntryValue(p, entries[0])), Tagged(p, entries[1..]));
  }

  lemma StoredItemsOfCons(p: Primitives, entries: seq<Entry>)
    requires entries != []
    ensures StoredItems(p, entries) == [Sorted(EntryValue(p, entries[0]), p.order)] + StoredItems(p, entries[1..])
  {
  }

  lemma {:induction false} ValuesOfCons(m: Member<Value>, members: seq<Member<Value>>)
    ensures Values([m] + members) == [m.value] + Values(members)
  {
    assert ([m] + members)[1..] == members;
  }

  lemma {:induction false} SortedItemsOfCons(first: Value, items: seq<Value>, order: Collation)
    ensures SortedItems([first] + items, order) == [Sorted(first, order)] + SortedItems(items, order)
    ensures AllWellFormed([first] + items) <==> WellFormed(first) && AllWellFormed(items)
  {
    assert ([first] + items)[1..] == items;
  }

  lemma {:induction false} StoredItemsPass(p: Primitives, entries: seq<Entry>)
    requires EntriesAreSafe(entries) && PathsDiffer(entries)
    ensures CheckItems(p, StoredItems(p, entries)) == Ok(Paths(entries))
    decreases |entries|
  {
    if entries != [] {
      var n := |entries| - 1;
      var before := entries[..n];
      assert StoredItems(p, entries)[..n] == StoredItems(p, before);
      StoredItemsPass(p, before);
      assert entries[n].path !in Paths(before);
      StoredEntryHasNoProblem(p, entries[n], Paths(before));
      EntryReadsBack(p, entries[n]);
      PathsGrow(entries, n);
      assert entries[..n + 1] == entries;
    } else {
      assert Paths(entries) == {};
    }
  }

  /** The entries a payload holds, contents decoded. */
  function Contents(inner: Value): seq<Entry> {
    var items := Items(inner);
    seq(|items|, k requires 0 <= k < |items| =>
      Entry(Text(Field(Some(items[k]), "path")), Text(Field(Some(items[k]), "mediaType")),
            Base64.Decode(Text(Field(Some(items[k]), "contentBase64")))))
  }

  lemma StoredContents(p: Primitives, inner: Value, entries: seq<Entry>)
    requires Items(inner) == StoredItems(p, entries)
    ensures Contents(inner) == entries
  {
    forall k | 0 <= k < |entries| ensures Contents(inner)[k] == entries[k] {
      EntryReadsBack(p, entries[k]);
      Base64.DecodeUndoesEncode(entries[k].bytes);
    }
  }

  function Payload(p: Primitives, i: Input): Value {
    SortedInner(p, i, Tagged(p, i.entries))
  }

  lemma PayloadIsWellFormed(p: Primitives, i: Input)
    ensures WellFormed(Payload(p, i))
    ensures Payload(p, i) == InnerManifest(i, Values(Tagged(p, SortedByPath(i.entries, p.order))))
  {
    SortTagged(p, i.entries);
    StoredItemsAreSorted(p, SortedByPath(i.entries, p.order));
    MembersWellFormedAt(Payload(p, i).members);
  }

  lemma PayloadReadsBack(p: Primitives, i: Input)
    ensures var inner := Sorted(Payload(p, i), p.order);
      && inner.Obj?
      && Field(Some(inner), "format") == Some(Str(INNER_FORMAT))
      && Field(Some(inner), "archiveId") == Some(Str(i.archiveId))
      && Field(Some(inner), "organizationId") == Some(Str(i.organizationId))
      && Field(Some(inner), "householdId") == Some(Str(i.householdId))
      && Field(Some(inner), "createdAt") == Some(Str(i.createdAt))
      && Items(inner) == StoredItems(p, SortedByPath(i.entries, p.order))
      && Field(Some(inner), "entries").Some? && Field(Some(inner), "entries").value.Arr?
  {
    PayloadIsWellFormed(p, i);
    StoredItemsAreSorted(p, SortedByPath(i.entries, p.order));
    var v := Payload(p, i);
    ReadsBack(v, 0, p.order);
    ReadsBack(v, 1, p.order);
    ReadsBack(v, 2, p.order);
    ReadsBack(v, 3, p.order);
    ReadsBack(v, 4, p.order);
    ReadsBack(v, 5, p.order);
  }

  // ----- manifest, envelope and container -----

  ghost predicate ManifestHolds(p: Primitives, i: Input, envelope: Value, m: Option<Value>)
    requires i.keyVersion >= 0
  {
    && Field(m, "format") == Some(Str(OUTER_FORMAT))
    && Field(m, "archiveId") == Some(Str(i.archiveId))
    && Field(m, "createdAt") == Some(Str(i.createdAt))
    && Field(m, "encryption") == Some(Str(A256GCM))
    && Field(m, "keyVersion") == Some(Number(Decimal(i.keyVersion)))
    && Field(m, "envelopeSha256") == Some(Str(p.hash(CanonicalBytes(p, envelope))))
  }

  ghost predicate EnvelopeHolds(p: Primitives, e: EncryptedEnvelope, v: Option<Value>)
    requires e.keyVersion >= 0
  {
    var wire := p.toWire(e.box);
    && Field(v, "algorithm") == Some(Str(e.algorithm))
    && Field(v, "keyVersion") == Some(Number(Decimal(e.keyVersion)))
    && Field(v, "iv") == Some(Str(wire.iv))
    && Field(v, "ciphertext") == Some(Str(wire.ciphertext))
    && Field(v, "authenticationTag") == Some(Str(wire.authenticationTag))
  }

  lemma ManifestKeysDiffer(p: Primitives, i: Input, envelope: Value)
    requires i.keyVersion >= 0
    ensures DistinctKeys(PublicManifest(p, i, envelope).members)
  {
    assert "encryption"[2] == 'c' && "envelopeSha256"[2] == 'v';
  }

  lemma ManifestIsWellFormed(p: Primitives, i: Input, envelope: Value)
    requires i.keyVersion >= 0
    ensures WellFormed(PublicManifest(p, i, envelope))
  {
    var m := PublicManifest(p, i, envelope).members;
    ManifestKeysDiffer(p, i, envelope);
    DecimalIsNumeral(i.keyVersion);
    forall k | 0 <= k < |m| ensures WellFormed(m[k].value) {
      assert m[k].value.Str? || k == 4;
    }
    MembersWellFormedAt(m);
  }

  lemma ManifestReadsBack(p: Primitives, i: Input, envelope: Value)
    requires i.keyVersion >= 0
    ensures ManifestHolds(p, i, envelope, Some(Sorted(PublicManifest(p, i, envelope), p.order)))
  {
    var m := PublicManifest(p, i, envelope);
    ManifestIsWellFormed(p, i, envelope);
    ReadsBack(m, 0, p.order);
    ReadsBack(m, 1, p.order);
    ReadsBack(m, 2, p.order);
    ReadsBack(m, 3, p.order);
    ReadsBack(m, 4, p.order);
    ReadsBack(m, 5, p.order);
  }

  lemma EnvelopeReadsBack(p: Primitives, e: EncryptedEnvelope)
    requires e.keyVersion >= 0
    ensures var v := EnvelopeValue(p, e);
      WellFormed(v) && EnvelopeHolds(p, e, Some(Sorted(v, p.order)))
  {
    var v := EnvelopeValue(p, e);
    DecimalIsNumeral(e.keyVersion);
    MembersWellFormedAt(v.members);
    ReadsBack(v, 0, p.order);
    ReadsBack(v, 1, p.order);
    ReadsBack(v, 2, p.order);
    ReadsBack(v, 3, p.order);
    ReadsBack(v, 4, p.order);
  }

  lemma {:induction false} ContainerReadsBack(p: Primitives, i: Input, manifest: Value, envelope: Value, signer: string)
    requires WellFormed(manifest) && WellFormed(envelope)
    ensures var v := Container(p, i, manifest, envelope, signer);
      var c := Some(Sorted(v, p.order));
      && WellFormed(v) && c.value.Obj?
      && Field(c, "manifest") == Some(Sorted(manifest, p.order))
      && Field(c, "envelope") == Some(Sorted(envelope, p.order))
      && Field(c, "signature") == Some(Str(p.sign(i.signingKey, CanonicalBytes(p, manifest))))
      && Field(c, "signerPublicKey") == Some(Str(signer))
  {
    var v := Container(p, i, manifest, envelope, signer);
    MembersWellFormedAt(v.members);
    ReadsBack(v, 0, p.order);
    ReadsBack(v, 1, p.order);
    ReadsBack(v, 2, p.order);
    ReadsBack(v, 3, p.order);
  }

  function Sealed(p: Primitives, i: Input): Result<EncryptedEnvelope> {
    SealedInner(p, i, Tagged(p, i.entries))
  }

  lemma BoxHoldsPayload(p: Primitives, i: Input)
    requires Sealed(p, i).Ok?
    ensures
      var context := ExportContext(i.archiveId, i.keyVersion);
      && i.keyVersion >= 1 && |i.exportKey| == 32 && AssociatedData(context).Ok?
      && Sealed(p, i).value == EncryptedEnvelope(A256GCM, i.keyVersion,
           Box(i.exportKey, AssociatedData(context).value, CanonicalBytes(p, Payload(p, i)), i.nonce))
  {
  }

  /** The payload comes out of the box with the export's own key, and with no other. */
  lemma PayloadDecrypts(p: Primitives, i: Input, m: Option<Value>, e: Option<Value>, key: seq<Byte>)
    requires Correct(p) && Sealed(p, i).Ok?
    requires ManifestHolds(p, i, EnvelopeValue(p, Sealed(p, i).value), m) && EnvelopeHolds(p, Sealed(p, i).value, e)
    ensures Decrypted(p, m, e, key) == if key == i.exportKey then Some(Sorted(Payload(p, i), p.order)) else None
  {
    var box := Sealed(p, i).value.box;
    BoxHoldsPayload(p, i);
    ReadUndoesDecimal(i.keyVersion);
    assert p.fromWire(p.toWire(box)) == Some(box);
    if key == i.exportKey {
      PayloadIsWellFormed(p, i);
      BytesParseBack(p, Payload(p, i));
    }
  }

  lemma PayloadPasses(p: Primitives, i: Input, envelope: Value, m: Option<Value>)
    requires i.keyVersion >= 0 && ManifestHolds(p, i, envelope, m)
    requires EntriesAreSafe(i.entries) && PathsDiffer(i.entries)
    ensures CheckInner(p, Sorted(Payload(p, i), p.order), m) == Ok(Sorted(Payload(p, i), p.order))
  {
    var inner, sorted := Sorted(Payload(p, i), p.order), SortedByPath(i.entries, p.order);
    assert PayloadMatches(inner, m) && Items(inner) == StoredItems(p, sorted) by {
      PayloadReadsBack(p, i);
    }
    assert CheckItems(p, StoredItems(p, sorted)).Ok? by {
      SortedPathsDiffer(p, i.entries);
      StoredItemsPass(p, sorted);
    }
  }

  lemma {:induction false} SortedPathsDiffer(p: Primitives, entries: seq<Entry>)
    requires EntriesAreSafe(entries) && PathsDiffer(entries)
    ensures EntriesAreSafe(SortedByPath(entries, p.order)) && PathsDiffer(SortedByPath(entries, p.order))
  {
    var sorted := SortedByPath(entries, p.order);
    SortedByPathSorts(entries, p.order);
    forall k | 0 <= k < |sorted| ensures EntryProblem(sorted[k].path, sorted[k].mediaType).None? {
      assert sorted[k] in multiset(sorted) && sorted[k] in entries;
    }
    SortTagged(p, entries);
    assert DistinctKeys(Tagged(p, entries));
    SortKeepsMembers(Tagged(p, entries), p.order);
    forall i, j | 0 <= i < j < |sorted| ensures sorted[i].path != sorted[j].path {
      assert Tagged(p, sorted)[i].key != Tagged(p, sorted)[j].key;
    }
  }

  /** A container with the export's manifest and envelope, under any key, is opened or refused by the key alone. */
  lemma ContainerOpens(p: Primitives, i: Input, c: Value, key: seq<Byte>, trusted: string)
    requires Correct(p) && Sealed(p, i).Ok? && EntriesAreSafe(i.entries) && PathsDiffer(i.entries)
    requires
      var envelope := EnvelopeValue(p, Sealed(p, i).value);
      && !c.Null?
      && ManifestHolds(p, i, envelope, Field(Some(c), "manifest"))
      && EnvelopeHolds(p, Sealed(p, i).value, Field(Some(c), "envelope"))
      && Field(Some(c), "signerPublicKey") == Some(Str(trusted))
      && CanonicalBytes(p, Field(Some(c), "envelope").value) == CanonicalBytes(p, envelope)
      && SignatureHolds(p, Field(Some(c), "manifest").value, Field(Some(c), "signature"), trusted)
    ensures OpenParsed(p, c, key, trusted)
         == if key == i.exportKey then Ok(Sorted(Payload(p, i), p.order)) else Err("export decryption failed")
  {
    var envelope := EnvelopeValue(p, Sealed(p, i).value);
    var m, e := Field(Some(c), "manifest"), Field(Some(c), "envelope");
    assert MetadataIsValid(c, trusted);
    PayloadDecrypts(p, i, m, e, key);
    PayloadPasses(p, i, envelope, m);
  }

  // ----- the theorems -----

  /**
   An export opens with its key under its signer, and gives the entries sorted by path with
   the bytes they were exported with. With any other key it does not open.
   */
  lemma OpeningReturnsTheEntries(p: Primitives, i: Input, key: seq<Byte>)
    requires Correct(p) && Export(p, i).Ok?
    ensures p.publicKey(i.signingKey).Some?
    ensures var r := Open(p, CanonicalBytes(p, Export(p, i).value), key, p.publicKey(i.signingKey).value);
      && (r.Ok? <==> key == i.exportKey)
      && (r.Ok? ==> r.value == Sorted(Payload(p, i), p.order) && Contents(r.value) == SortedByPath(i.entries, p.order))
  {
    EntriesAreAccepted(p, i.entries);
    var sealed, signer := Sealed(p, i).value, p.publicKey(i.signingKey).value;
    var envelope := EnvelopeValue(p, sealed);
    var manifest := PublicManifest(p, i, envelope);
    EnvelopeReadsBack(p, sealed);
    ManifestIsWellFormed(p, i, envelope);
    ManifestReadsBack(p, i, envelope);
    ContainerReadsBack(p, i, manifest, envelope, signer);
    BytesParseBack(p, Container(p, i, manifest, envelope, signer));
    BytesParseBack(p, envelope);
    BytesParseBack(p, manifest);
    ContainerOpens(p, i, Sorted(Container(p, i, manifest, envelope, signer), p.order), key, signer);
    PayloadReadsBack(p, i);
    StoredContents(p, Sorted(Payload(p, i), p.order), SortedByPath(i.entries, p.order));
  }

  // ----- nothing else opens -----

  /**
   No two byte strings share a digest, and the container carries no forged signature: if the
   one it carries verifies at all, it is a signature of this export's manifest.
   */
  ghost predicate Unforged(p: Primitives, i: Input, signature: Option<Value>, trusted: string)
    requires Sealed(p, i).Ok?
  {
    var manifest := PublicManifest(p, i, EnvelopeValue(p, Sealed(p, i).value));
    && (forall a, b :: p.hash(a) == p.hash(b) ==> a == b)
    && forall message :: p.verify(message, Text(signature), trusted) ==> message == CanonicalBytes(p, manifest)
  }

  lemma {:induction false} SameBytesSameSorted(p: Primitives, u: Value, v: Value)
    requires WellFormed(u) && WellFormed(v) && CanonicalBytes(p, u) == CanonicalBytes(p, v)
    ensures Sorted(u, p.order) == Sorted(v, p.order)
  {
    Utf8.EncodeIsInjective(Print(u, p.order), Print(v, p.order));
    SameTextSameSorted(u, v, p.order);
  }

  /** A text or number read from one of two values with the same canonical form is in the other. */
  lemma {:induction false} ScalarCarriesOver(u: Value, v: Value, key: string, order: Collation)
    requires WellFormed(u) && Sorted(u, order) == v
    requires Field(Some(v), key).Some? && (Field(Some(v), key).value.Str? || Field(Some(v), key).value.Number?)
    ensures Field(Some(u), key) == Field(Some(v), key)
  {
    FieldOfSorted(u, key, order);
  }

  lemma {:induction false} SignedManifestHolds(p: Primitives, i: Input, envelope: Value, m: Value)
    requires i.keyVersion >= 0 && WellFormed(m)
    requires CanonicalBytes(p, m) == CanonicalBytes(p, PublicManifest(p, i, envelope))
    ensures ManifestHolds(p, i, envelope, Some(m))
  {
    var signed := PublicManifest(p, i, envelope);
    ManifestIsWellFormed(p, i, envelope);
    ManifestReadsBack(p, i, envelope);
    SameBytesSameSorted(p, m, signed);
    var v := Sorted(signed, p.order);
    ScalarCarriesOver(m, v, "format", p.order);
    ScalarCarriesOver(m, v, "archiveId", p.order);
    ScalarCarriesOver(m, v, "createdAt", p.order);
    ScalarCarriesOver(m, v, "encryption", p.order);
    ScalarCarriesOver(m, v, "keyVersion", p.order);
    ScalarCarriesOver(m, v, "envelopeSha256", p.order);
  }

  lemma {:induction false} DigestedEnvelopeHolds(p: Primitives, e: EncryptedEnvelope, v: Value)
    requires e.keyVersion >= 0 && WellFormed(v)
    requires CanonicalBytes(p, v) == CanonicalBytes(p, EnvelopeValue(p, e))
    ensures EnvelopeHolds(p, e, Some(v))
  {
    EnvelopeReadsBack(p, e);
    SameBytesSameSorted(p, v, EnvelopeValue(p, e));
    var sorted := Sorted(EnvelopeValue(p, e), p.order);
    ScalarCarriesOver(v, sorted, "algorithm", p.order);
    ScalarCarriesOver(v, sorted, "keyVersion", p.order);
    ScalarCarriesOver(v, sorted, "iv", p.order);
    ScalarCarriesOver(v, sorted, "ciphertext", p.order);
    ScalarCarriesOver(v, sorted, "authenticationTag", p.order);
  }

  /** What the checks before decryption have established once a container opens. */
  lemma OpenedContainerPassedChecks(p: Primitives, c: Value, key: seq<Byte>, trusted: string)
    requires OpenParsed(p, c, key, trusted).Ok?
    ensures
      var manifest, envelope := Field(Some(c), "manifest"), Field(Some(c), "envelope");
      && !c.Null? && MetadataIsValid(c, trusted) && manifest.Some? && envelope.Some?
      && Field(manifest, "envelopeSha256") == Some(Str(p.hash(CanonicalBytes(p, envelope.value))))
      && SignatureHolds(p, manifest.value, Field(Some(c), "signature"), trusted)
  {
  }

  lemma {:induction false} OpenedManifestIsSigned(p: Primitives, i: Input, c: Value, trusted: string)
    requires Sealed(p, i).Ok? && WellFormed(c) && Field(Some(c), "manifest").Some?
    requires Unforged(p, i, Field(Some(c), "signature"), trusted)
    requires SignatureHolds(p, Field(Some(c), "manifest").value, Field(Some(c), "signature"), trusted)
    ensures ManifestHolds(p, i, EnvelopeValue(p, Sealed(p, i).value), Field(Some(c), "manifest"))
  {
    var m := Field(Some(c), "manifest").value;
    FieldIsWellFormed(c, "manifest");
    assert p.verify(CanonicalBytes(p, m), Text(Field(Some(c), "signature")), trusted);
    SignedManifestHolds(p, i, EnvelopeValue(p, Sealed(p, i).value), m);
  }

  lemma {:induction false} OpenedEnvelopeIsDigested(p: Primitives, i: Input, c: Value, trusted: string)
    requires Sealed(p, i).Ok? && WellFormed(c) && Field(Some(c), "envelope").Some?
    requires Unforged(p, i, Field(Some(c), "signature"), trusted)
    requires p.hash(CanonicalBytes(p, Field(Some(c), "envelope").value))
          == p.hash(CanonicalBytes(p, EnvelopeValue(p, Sealed(p, i).value)))
    ensures EnvelopeHolds(p, Sealed(p, i).value, Field(Some(c), "envelope"))
    ensures CanonicalBytes(p, Field(Some(c), "envelope").value)
         == CanonicalBytes(p, EnvelopeValue(p, Sealed(p, i).value))
  {
    FieldIsWellFormed(c, "envelope");
    DigestedEnvelopeHolds(p, Sealed(p, i).value, Field(Some(c), "envelope").value);
  }

  lemma {:induction false} OpenedContainerIsTheExport(p: Primitives, i: Input, c: Value, key: seq<Byte>, trusted: string)
    requires Correct(p) && Sealed(p, i).Ok? && EntriesAreSafe(i.entries) && PathsDiffer(i.entries) && WellFormed(c)
    requires Unforged(p, i, Field(Some(c), "signature"), trusted)
    requires OpenParsed(p, c, key, trusted).Ok?
    ensures key == i.exportKey && OpenParsed(p, c, key, trusted) == Ok(Sorted(Payload(p, i), p.order))
  {
    OpenedContainerPassedChecks(p, c, key, trusted);
    OpenedManifestIsSigned(p, i, c, trusted);
    OpenedEnvelopeIsDigested(p, i, c, trusted);
    ContainerOpens(p, i, c, key, trusted);
  }

  /**
   Any bytes at all that open, under any key, with a signature the signer made for this
   export, open to this export's entries, and with its key.
   */
  lemma {:induction false} OnlyTheExportOpens(p: Primitives, i: Input, container: seq<Byte>, key: seq<Byte>, trusted: string)
    requires Correct(p) && Sealed(p, i).Ok? && EntriesAreSafe(i.entries) && PathsDiffer(i.entries)
    requires Unforged(p, i, Field(Parse(Utf8.Decode(container)), "signature"), trusted)
    requires Open(p, container, key, trusted).Ok?
    ensures key == i.exportKey
    ensures Open(p, container, key, trusted).value == Sorted(Payload(p, i), p.order)
    ensures Contents(Open(p, container, key, trusted).value) == SortedByPath(i.entries, p.order)
  {
    ParsedIsWellFormed(Utf8.Decode(container));
    OpenedContainerIsTheExport(p, i, Parse(Utf8.Decode(container)).value, key, trusted);
    PayloadReadsBack(p, i);
    StoredContents(p, Sorted(Payload(p, i), p.order), SortedByPath(i.entries, p.order));
  }

  // ----- the assumptions can be met -----

  function SampleToWire(order: Collation, box: Box): Wire {
    Wire(Hex.Encode(box.key), Hex.Encode(box.plaintext),
         Print(Arr([Number(Decimal(box.nonce)), Str(box.associatedData)]), order))
  }

  function SampleFromWire(wire: Wire): Option<Box> {
    match Parse(wire.authenticationTag)
    case Some(Arr(items)) =>
      if |items| == 2 && items[0].Number? && items[1].Str?
      then Some(Box(Hex.Decode(wire.iv), items[1].text, Hex.Decode(wire.ciphertext), Read(items[0].numeral)))
      else None
    case _ => None
  }

  /** A scheme that hides nothing but keeps every promise: texts stand for their own digests and signatures. */
  function SampleScheme(order: Collation): Primitives {
    Primitives(order, Hex.Encode, (secret: string) => Some(secret), (secret: string, message) => Hex.Encode(message),
               (message, signature: string, signer: string) => signature == Hex.Encode(message),
               box => SampleToWire(order, box), SampleFromWire, (text: string) => true)
  }

  lemma {:induction false} HexIsInjective(a: seq<Byte>, b: seq<Byte>)
    requires Hex.Encode(a) == Hex.Encode(b)
    ensures a == b
  {
    Hex.DecodeUndoesEncode(a);
    Hex.DecodeUndoesEncode(b);
  }

  lemma SampleWireReadsBack(order: Collation, box: Box)
    ensures SampleFromWire(SampleToWire(order, box)) == Some(box)
  {
    var items := [Number(Decimal(box.nonce)), Str(box.associatedData)];
    DecimalIsNumeral(box.nonce);
    assert items[1..] == [Str(box.associatedData)] && items[1..][1..] == [];
    assert AllWellFormed([]) && AllWellFormed([Str(box.associatedData)]);
    assert WellFormed(items[0]) && AllWellFormed(items);
    ParseUndoesPrint(Arr(items), order);
    JsonOrder.SortedItemsAt(items, order, 0);
    JsonOrder.SortedItemsAt(items, order, 1);
    assert SortedItems(items, order) == items;
    ReadUndoesDecimal(box.nonce);
    Hex.DecodeUndoesEncode(box.key);
    Hex.DecodeUndoesEncode(box.plaintext);
  }

  /** The two theorems speak about something: this scheme is correct, and its own exports are unforged. */
  lemma AssumptionsCanBeMet(order: Collation, i: Input, trusted: string)
    ensures Correct(SampleScheme(order))
    ensures Sealed(SampleScheme(order), i).Ok? ==>
      var p := SampleScheme(order);
      var manifest := PublicManifest(p, i, EnvelopeValue(p, Sealed(p, i).value));
      Unforged(p, i, Some(Str(p.sign(i.signingKey, CanonicalBytes(p, manifest)))), trusted)
  {
    var p := SampleScheme(order);
    forall box ensures p.fromWire(p.toWire(box)) == Some(box) {
      SampleWireReadsBack(order, box);
    }
    forall a, b | p.hash(a) == p.hash(b) ensures a == b {
      HexIsInjective(a, b);
    }
  }
}

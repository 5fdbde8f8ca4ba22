/**
 The rows one uploaded document owns, and the six transactions of `VaultRepository`
 that move them. Every transaction has a specification function over the rows and a
 method of `DocumentRepository` that runs the source's statements one by one and rolls
 back when one of them throws.
 */
module DocumentTables {
  import opened Prelude

  datatype DocumentStatus = Pending | Quarantined | Clean | Rejected

  datatype RunStatus = RunPending | RunRunning | RunFailed | RunCompleted

  datatype Step = Scan | Ocr | DeleteOriginal | Classification | ManualExtraction

  datatype Document = Document(
    status: DocumentStatus,
    version: nat,
    deleteOriginalAfterProcessing: bool,
    originalDeletedAt: Option<int>,
    ciphertextSha256: Option<string>,
    lastErrorClass: Option<string>)

  datatype WorkflowRun = WorkflowRun(
    status: RunStatus,
    completedSteps: seq<Step>,
    nextStep: Option<Step>,
    version: nat,
    lastErrorClass: Option<string>)

  datatype Candidate = Candidate(id: string, evidenceId: string, fieldKey: string, locator: string)

  /** What the request hash of a reserved key was computed from; SHA-256 is taken as injective. */
  datatype Fingerprint =
    | UploadFingerprint(expectedVersion: nat, ciphertextSha256: string)
    | ExtractionFingerprint(digest: string)

  datatype Response =
    | UploadStarted(documentVersion: nat, workflowVersion: nat)
    | Extracted(candidates: seq<Candidate>)

  datatype LedgerRow = LedgerRow(fingerprint: Fingerprint, response: Response)

  datatype Rows = Rows(
    document: Document,
    workflow: Option<WorkflowRun>,
    derivative: Option<string>,
    evidence: seq<string>,
    facts: seq<Candidate>,
    ledger: map<string, LedgerRow>)

  datatype Committed<T> = Committed(rows: Rows, response: T)

  datatype UploadInput = UploadInput(expectedVersion: nat, ciphertextSha256: string, idempotencyKey: string)

  datatype ScanInput = ScanInput(documentVersion: nat, workflowVersion: nat, infected: bool)

  datatype OcrInput = OcrInput(workflowVersion: nat, ciphertextSha256: string)

  datatype ExtractionInput = ExtractionInput(
    expectedWorkflowVersion: nat,
    idempotencyKey: string,
    requestFingerprint: string,
    candidates: seq<Candidate>)

  // ----- the transactions as functions of the rows -----

  function Appended(steps: seq<Step>, step: Step): seq<Step> {
    if step in steps then steps else steps + [step]
  }

  function CompleteUpload(rows: Rows, input: UploadInput): Result<Committed<Response>> {
    var fingerprint := UploadFingerprint(input.expectedVersion, input.ciphertextSha256);
    if input.idempotencyKey in rows.ledger then
      if rows.ledger[input.idempotencyKey].fingerprint == fingerprint
      then Ok(Committed(rows, rows.ledger[input.idempotencyKey].response))
      else Err("document completion idempotency conflict")
    else if rows.document.status != Pending || rows.document.version != input.expectedVersion then
      Err("document upload version conflict")
    else if rows.workflow.Some? then
      Err("duplicate key value violates unique constraint")
    else
      var document := rows.document.(
                      status := Quarantined,
                      ciphertextSha256 := Some(input.ciphertextSha256),
                      version := rows.document.version + 1);
      var response := UploadStarted(document.version, 1);
      Ok(Committed(
           rows.(document := document,
                 workflow := Some(WorkflowRun(RunPending, [], Some(Scan), 1, None)),
                 ledger := rows.ledger[input.idempotencyKey := LedgerRow(fingerprint, response)]),
           response))
  }

  function CompleteScan(rows: Rows, input: ScanInput): Result<Committed<()>> {
    if rows.document.status != Quarantined || rows.document.version != input.documentVersion then
      Err("document scan completion conflict")
    else if rows.workflow.None? || rows.workflow.value.version != input.workflowVersion
            || rows.workflow.value.nextStep != Some(Scan) then
      Err("document scan workflow conflict")
    else
      var run := rows.workflow.value;
      Ok(Committed(
           rows.(document := rows.document.(
                             status := if input.infected then Rejected else Clean,
                             lastErrorClass := None,
                             version := rows.document.version + 1),
                 workflow := Some(run.(
                                  status := if input.infected then RunCompleted else RunRunning,
                                  completedSteps := Appended(run.completedSteps, Scan),
                                  nextStep := if input.infected then None else Some(Ocr),
                                  lastErrorClass := None,
                                  version := run.version + 1))),
           ()))
  }

  function RecordFailure(rows: Rows, errorClass: string): Rows {
    var text := if |errorClass| > 120 then errorClass[..120] else errorClass;
    rows.(document := if rows.document.status == Quarantined
                      then rows.document.(lastErrorClass := Some(text), version := rows.document.version + 1)
                      else rows.document,
          workflow := if rows.workflow.Some? && rows.workflow.value.status != RunCompleted
                      then Some(rows.workflow.value.(
                                status := RunFailed,
                                lastErrorClass := Some(text),
                                version := rows.workflow.value.version + 1))
                      else rows.workflow)
  }

  function CompleteOcr(rows: Rows, input: OcrInput): Result<Committed<()>> {
    var derivative := if rows.derivative.None? then input.ciphertextSha256 else rows.derivative.value;
    if derivative != input.ciphertextSha256 then
      Err("document OCR derivative conflict")
    else if rows.workflow.None? || rows.workflow.value.version != input.workflowVersion
            || rows.workflow.value.nextStep != Some(Ocr) then
      Err("document OCR workflow conflict")
    else
      var run := rows.workflow.value;
      Ok(Committed(
           rows.(derivative := Some(derivative),
                 workflow := Some(run.(
                                  status := RunRunning,
                                  completedSteps := Appended(run.completedSteps, Ocr),
                                  nextStep := Some(if rows.document.deleteOriginalAfterProcessing
                                                   then DeleteOriginal else Classification),
                                  lastErrorClass := None,
                                  version := run.version + 1))),
           ()))
  }

  function CompleteOriginalDeletion(rows: Rows, deletedAt: int): Result<Committed<()>> {
    var document := if !rows.document.deleteOriginalAfterProcessing || rows.document.originalDeletedAt.Some?
                    then rows.document
                    else rows.document.(
                         originalDeletedAt := Some(deletedAt),
                         version := rows.document.version + 1);
    if rows.workflow.Some? && rows.workflow.value.nextStep == Some(DeleteOriginal) then
      var run := rows.workflow.value;
      Ok(Committed(
           rows.(document := document,
                 workflow := Some(run.(
                                  status := RunRunning,
                                  completedSteps := Appended(run.completedSteps, DeleteOriginal),
                                  nextStep := Some(Classification),
                                  lastErrorClass := None,
                                  version := run.version + 1))),
           ()))
    else if rows.workflow.Some? && DeleteOriginal in rows.workflow.value.completedSteps then
      Ok(Committed(rows.(document := document), ()))
    else
      Err("document original deletion conflict")
  }

  /** Inserting the candidates in order fails as soon as a primary key is taken. */
  predicate FreshKeys(evidence: seq<string>, facts: seq<Candidate>, candidates: seq<Candidate>) {
    && (forall i :: 0 <= i < |candidates| ==> candidates[i].evidenceId !in evidence)
    && (forall i, j :: 0 <= i < |candidates| && 0 <= j < |facts| ==> candidates[i].id != facts[j].id)
    && (forall i, j :: 0 <= i < j < |candidates| ==>
          candidates[i].evidenceId != candidates[j].evidenceId && candidates[i].id != candidates[j].id)
  }

  function EvidenceIds(candidates: seq<Candidate>): seq<string> {
    seq(|candidates|, i requires 0 <= i < |candidates| => candidates[i].evidenceId)
  }

  function CompleteExtraction(rows: Rows, input: ExtractionInput): Result<Committed<Response>> {
    var fingerprint := ExtractionFingerprint(input.requestFingerprint);
    if input.idempotencyKey in rows.ledger then
      if rows.ledger[input.idempotencyKey].fingerprint == fingerprint
      then Ok(Committed(rows, rows.ledger[input.idempotencyKey].response))
      else Err("manual extraction idempotency conflict")
    else if rows.workflow.None? || rows.document.status != Clean
            || rows.workflow.value.nextStep != Some(Classification)
            || rows.workflow.value.version != input.expectedWorkflowVersion then
      Err("manual extraction workflow conflict")
    else if !FreshKeys(rows.evidence, rows.facts, input.candidates) then
      Err("duplicate key value violates unique constraint")
    else
      var run := rows.workflow.value;
      var response := Extracted(input.candidates);
      Ok(Committed(
           rows.(evidence := rows.evidence + EvidenceIds(input.candidates),
                 facts := rows.facts + input.candidates,
                 workflow := Some(run.(
                                  status := RunCompleted,
                                  completedSteps := run.completedSteps + [Classification, ManualExtraction],
                                  nextStep := None,
                                  lastErrorClass := None,
                                  version := run.version + 1)),
                 ledger := rows.ledger[input.idempotencyKey := LedgerRow(fingerprint, response)]),
           response))
  }

  // ----- what every transaction keeps -----

  /** The legal positions: the recorded steps and the step that is due. */
  predicate LegalPosition(steps: seq<Step>, next: Option<Step>, deleteOriginal: bool) {
    var processed := if deleteOriginal then [Scan, Ocr, DeleteOriginal] else [Scan, Ocr];
    || (steps == [] && next == Some(Scan))
    || (steps == [Scan] && (next == Some(Ocr) || next == None))
    || (deleteOriginal && steps == [Scan, Ocr] && next == Some(DeleteOriginal))
    || (steps == processed && next == Some(Classification))
    || (steps == processed + [Classification, ManualExtraction] && next == None)
  }

  predicate DuplicateFree(steps: seq<Step>) {
    forall i, j :: 0 <= i < j < |steps| ==> steps[i] != steps[j]
  }

  /** The joint invariant of the document, workflow, derivative, evidence and fact rows. */
  predicate Consistent(rows: Rows) {
    && (rows.document.status == Pending <==> rows.workflow.None?)
    && (rows.workflow.None? ==>
          && rows.derivative.None? && rows.facts == [] && rows.evidence == []
          && rows.document.originalDeletedAt.None?)
    && (rows.workflow.Some? ==>
          var run := rows.workflow.value;
          && LegalPosition(run.completedSteps, run.nextStep, rows.document.deleteOriginalAfterProcessing)
          && (run.status == RunCompleted <==> run.nextStep.None?)
          && (rows.document.status == Quarantined <==> run.completedSteps == [])
          && (rows.document.status == Rejected <==> run.completedSteps == [Scan] && run.nextStep.None?)
          && (rows.derivative.Some? <==> Ocr in run.completedSteps)
          && (rows.document.originalDeletedAt.Some? <==> DeleteOriginal in run.completedSteps)
          && (ManualExtraction !in run.completedSteps ==> rows.facts == [])
          && rows.evidence == EvidenceIds(rows.facts))
  }

  lemma ConsistentStepsAreDistinct(rows: Rows)
    requires Consistent(rows) && rows.workflow.Some?
    ensures DuplicateFree(rows.workflow.value.completedSteps)
  {
  }

  /** Nothing that was recorded is ever taken back. */
  predicate OnlyAdvances(before: Rows, after: Rows) {
    && before.document.version <= after.document.version
    && before.document.deleteOriginalAfterProcessing == after.document.deleteOriginalAfterProcessing
    && (before.document.originalDeletedAt.Some? ==>
          after.document.originalDeletedAt == before.document.originalDeletedAt)
    && (before.document.status in {Clean, Rejected} ==> after.document.status == before.document.status)
    && (before.derivative.Some? ==> after.derivative == before.derivative)
    && before.facts <= after.facts && before.evidence <= after.evidence
    && (forall key :: key in before.ledger ==> key in after.ledger && after.ledger[key] == before.ledger[key])
    && (before.workflow.Some? ==>
          && after.workflow.Some?
          && before.workflow.value.version <= after.workflow.value.version
          && before.workflow.value.completedSteps <= after.workflow.value.completedSteps
          && (before.workflow.value.nextStep.None? ==>
                after.workflow == before.workflow && after.facts == before.facts))
  }

  lemma UploadKeepsRows(rows: Rows, input: UploadInput)
    requires Consistent(rows) && CompleteUpload(rows, input).Ok?
    ensures Consistent(CompleteUpload(rows, input).value.rows)
    ensures OnlyAdvances(rows, CompleteUpload(rows, input).value.rows)
  {
  }

  lemma ScanKeepsRows(rows: Rows, input: ScanInput)
    requires Consistent(rows) && CompleteScan(rows, input).Ok?
    ensures Consistent(CompleteScan(rows, input).value.rows)
    ensures OnlyAdvances(rows, CompleteScan(rows, input).value.rows)
  {
  }

  /** A recorded failure bumps versions but never moves the position. */
  lemma FailureKeepsPosition(rows: Rows, errorClass: string)
    requires Consistent(rows)
    ensures var after := RecordFailure(rows, errorClass);
      && Consistent(after) && OnlyAdvances(rows, after)
      && after.document.status == rows.document.status
      && after.facts == rows.facts && after.derivative == rows.derivative && after.ledger == rows.ledger
      && (rows.workflow.Some? ==>
            && after.workflow.Some?
            && after.workflow.value.completedSteps == rows.workflow.value.completedSteps
            && after.workflow.value.nextStep == rows.workflow.value.nextStep)
  {
  }

  lemma OcrKeepsRows(rows: Rows, input: OcrInput)
    requires Consistent(rows) && CompleteOcr(rows, input).Ok?
    ensures Consistent(CompleteOcr(rows, input).value.rows)
    ensures OnlyAdvances(rows, CompleteOcr(rows, input).value.rows)
  {
  }

  lemma DeletionKeepsRows(rows: Rows, deletedAt: int)
    requires Consistent(rows) && CompleteOriginalDeletion(rows, deletedAt).Ok?
    ensures Consistent(CompleteOriginalDeletion(rows, deletedAt).value.rows)
    ensures OnlyAdvances(rows, CompleteOriginalDeletion(rows, deletedAt).value.rows)
  {
  }

  /** Facts appear all together with their evidence, and only at the last step. */
  lemma ExtractionKeepsRows(rows: Rows, input: ExtractionInput)
    requires Consistent(rows) && CompleteExtraction(rows, input).Ok?
    ensures var after := CompleteExtraction(rows, input).value.rows;
      && Consistent(after) && OnlyAdvances(rows, after)
      && (input.idempotencyKey in rows.ledger ==> after == rows)
      && (input.idempotencyKey !in rows.ledger ==>
            rows.facts == [] && after.facts == input.candidates && after.workflow.value.nextStep.None?)
  {
  }

  // ----- when a transaction is accepted, and what it leaves -----

  /** A row that changes counts up by one, so that an equal version means an equal row. */
  predicate CountsUp(before: Rows, after: Rows) {
    && (after.document == before.document || after.document.version == before.document.version + 1)
    && (before.workflow.None? && after.workflow.Some? ==> after.workflow.value.version == 1)
    && (before.workflow.Some? ==>
          && after.workflow.Some?
          && (after.workflow == before.workflow
              || after.workflow.value.version == before.workflow.value.version + 1))
  }

  lemma ClientTransactionsCountUp(rows: Rows, upload: UploadInput, extraction: ExtractionInput)
    ensures CompleteUpload(rows, upload).Ok? ==> CountsUp(rows, CompleteUpload(rows, upload).value.rows)
    ensures CompleteExtraction(rows, extraction).Ok? ==>
      CountsUp(rows, CompleteExtraction(rows, extraction).value.rows)
  {
  }

  lemma ScanCountsUp(rows: Rows, input: ScanInput, errorClass: string)
    ensures CompleteScan(rows, input).Ok? ==> CountsUp(rows, CompleteScan(rows, input).value.rows)
    ensures CountsUp(rows, RecordFailure(rows, errorClass))
  {
  }

  lemma OcrCountsUp(rows: Rows, input: OcrInput, deletedAt: int)
    ensures CompleteOcr(rows, input).Ok? ==> CountsUp(rows, CompleteOcr(rows, input).value.rows)
    ensures CompleteOriginalDeletion(rows, deletedAt).Ok? ==>
      CountsUp(rows, CompleteOriginalDeletion(rows, deletedAt).value.rows)
  {
  }

  /**
   A new key completes the upload exactly while the document is pending at the expected
   version; the response names the versions to go on with.
   */
  lemma UploadIsAcceptedExactly(rows: Rows, input: UploadInput)
    requires Consistent(rows) && input.idempotencyKey !in rows.ledger
    ensures CompleteUpload(rows, input).Ok? <==>
      rows.document.status == Pending && rows.document.version == input.expectedVersion
    ensures CompleteUpload(rows, input).Ok? ==>
      var after := CompleteUpload(rows, input).value.rows;
      && after.document.status == Quarantined && after.document.ciphertextSha256 == Some(input.ciphertextSha256)
      && after.workflow.Some? && after.workflow.value.status == RunPending
      && after.workflow.value.completedSteps == [] && after.workflow.value.nextStep == Some(Scan)
      && CompleteUpload(rows, input).value.response
         == UploadStarted(after.document.version, after.workflow.value.version)
  {
  }

  /** Once answered, a key gives the same answer to the same request, and a conflict to any other, for good. */
  lemma UploadIsReplayed(rows: Rows, input: UploadInput, later: Rows, again: UploadInput)
    requires Consistent(rows) && CompleteUpload(rows, input).Ok?
    requires OnlyAdvances(CompleteUpload(rows, input).value.rows, later)
    requires again.idempotencyKey == input.idempotencyKey
    ensures again == input ==>
      CompleteUpload(later, again) == Ok(Committed(later, CompleteUpload(rows, input).value.response))
    ensures again != input ==> CompleteUpload(later, again) == Err("document completion idempotency conflict")
    ensures forall extraction: ExtractionInput :: extraction.idempotencyKey == input.idempotencyKey ==>
      CompleteExtraction(later, extraction).Err?
  {
    var key := input.idempotencyKey;
    var first := CompleteUpload(rows, input).value;
    assert first.rows.ledger[key] == LedgerRow(UploadFingerprint(input.expectedVersion, input.ciphertextSha256),
                                               first.response);
    assert key in later.ledger && later.ledger[key] == first.rows.ledger[key];
  }

  /** A verdict is accepted exactly on a quarantined document that is due for it, at both expected versions. */
  lemma ScanIsAcceptedExactly(rows: Rows, input: ScanInput)
    requires Consistent(rows)
    ensures CompleteScan(rows, input).Ok? <==>
      && rows.document.status == Quarantined && rows.document.version == input.documentVersion
      && rows.workflow.Some? && rows.workflow.value.version == input.workflowVersion
    ensures CompleteScan(rows, input).Ok? ==>
      var after := CompleteScan(rows, input).value.rows;
      && (if input.infected then after.document.status == Rejected && after.workflow.value.status == RunCompleted
          else after.document.status == Clean && after.workflow.value.status == RunRunning)
      && after.document.lastErrorClass.None? && after.workflow.value.lastErrorClass.None?
      && after.workflow.value.completedSteps == [Scan]
      && after.workflow.value.nextStep == (if input.infected then None else Some(Ocr))
  {
  }

  /** A failure leaves the first 120 characters of its name wherever it is noted. */
  lemma FailureIsNoted(rows: Rows, errorClass: string)
    ensures var after := RecordFailure(rows, errorClass);
      && (rows.document.status == Quarantined ==>
            && after.document.lastErrorClass.Some? && after.document.lastErrorClass.value <= errorClass
            && |after.document.lastErrorClass.value| <= 120
            && (|after.document.lastErrorClass.value| == 120 || after.document.lastErrorClass.value == errorClass))
      && (rows.document.status != Quarantined ==> after.document == rows.document)
      && (rows.workflow.Some? && rows.workflow.value.status != RunCompleted ==>
            && after.workflow.value.lastErrorClass.Some? && after.workflow.value.lastErrorClass.value <= errorClass
            && |after.workflow.value.lastErrorClass.value| <= 120
            && (|after.workflow.value.lastErrorClass.value| == 120
                || after.workflow.value.lastErrorClass.value == errorClass))
  {
  }

  /** A derivative is accepted exactly when recognition is due at the expected version; it is recorded once. */
  lemma OcrIsAcceptedExactly(rows: Rows, input: OcrInput)
    requires Consistent(rows)
    ensures CompleteOcr(rows, input).Ok? <==>
      && rows.workflow.Some? && rows.workflow.value.nextStep == Some(Ocr)
      && rows.workflow.value.version == input.workflowVersion
    ensures CompleteOcr(rows, input).Ok? ==>
      var after := CompleteOcr(rows, input).value.rows;
      && rows.derivative.None? && after.derivative == Some(input.ciphertextSha256)
      && after.document == rows.document && after.workflow.value.status == RunRunning
      && after.workflow.value.lastErrorClass.None? && after.workflow.value.completedSteps == [Scan, Ocr]
      && (rows.document.deleteOriginalAfterProcessing <==> after.workflow.value.nextStep == Some(DeleteOriginal))
  {
  }

  /** A deletion is accepted exactly while it is due or after it was recorded, and its first time stays. */
  lemma DeletionIsAcceptedExactly(rows: Rows, deletedAt: int)
    requires Consistent(rows)
    ensures CompleteOriginalDeletion(rows, deletedAt).Ok? <==>
      && rows.workflow.Some?
      && (rows.workflow.value.nextStep == Some(DeleteOriginal) || rows.document.originalDeletedAt.Some?)
    ensures CompleteOriginalDeletion(rows, deletedAt).Ok? ==>
      var after := CompleteOriginalDeletion(rows, deletedAt).value.rows;
      if rows.document.originalDeletedAt.Some? then after == rows
      else
        && after.document == rows.document.(originalDeletedAt := Some(deletedAt), version := after.document.version)
        && after.workflow.value.nextStep == Some(Classification) && after.workflow.value.status == RunRunning
        && after.workflow.value.lastErrorClass.None?
  {
  }

  /** A new key extracts exactly from a clean document awaiting classification, at the expected version. */
  lemma ExtractionIsAcceptedExactly(rows: Rows, input: ExtractionInput)
    requires Consistent(rows) && input.idempotencyKey !in rows.ledger
    ensures CompleteExtraction(rows, input).Ok? <==>
      && rows.workflow.Some? && rows.workflow.value.nextStep == Some(Classification)
      && rows.document.status == Clean && rows.workflow.value.version == input.expectedWorkflowVersion
      && FreshKeys([], [], input.candidates)
    ensures CompleteExtraction(rows, input).Ok? ==>
      var after := CompleteExtraction(rows, input).value.rows;
      && CompleteExtraction(rows, input).value.response == Extracted(after.facts)
      && after.document == rows.document && after.derivative == rows.derivative
      && after.workflow.value.status == RunCompleted && after.workflow.value.lastErrorClass.None?
  {
    assert EvidenceIds([]) == [];
  }

  lemma ExtractionIsReplayed(rows: Rows, input: ExtractionInput, later: Rows, again: ExtractionInput)
    requires Consistent(rows) && CompleteExtraction(rows, input).Ok?
    requires OnlyAdvances(CompleteExtraction(rows, input).value.rows, later)
    requires again.idempotencyKey == input.idempotencyKey
    ensures again.requestFingerprint == input.requestFingerprint ==>
      CompleteExtraction(later, again) == Ok(Committed(later, CompleteExtraction(rows, input).value.response))
    ensures again.requestFingerprint != input.requestFingerprint ==>
      CompleteExtraction(later, again) == Err("manual extraction idempotency conflict")
  {
    var key := input.idempotencyKey;
    var first := CompleteExtraction(rows, input).value;
    assert first.rows.ledger[key] == LedgerRow(ExtractionFingerprint(input.requestFingerprint), first.response);
    assert key in later.ledger && later.ledger[key] == first.rows.ledger[key];
  }

  // ----- the statements themselves -----

  class DocumentRepository {
    var document: Document
    var workflow: Option<WorkflowRun>
    var derivative: Option<string>
    var evidence: seq<string>
    var facts: seq<Candidate>
    var ledger: map<string, LedgerRow>

    function Contents(): Rows
      reads this
    {
      Rows(document, workflow, derivative, evidence, facts, ledger)
    }

    constructor (deleteOriginalAfterProcessing: bool)
      ensures Contents() == Rows(Document(Pending, 1, deleteOriginalAfterProcessing, None, None, None),
                                 None, None, [], [], map[])
      ensures Consistent(Contents())
    {
      document := Document(Pending, 1, deleteOriginalAfterProcessing, None, None, None);
      workflow := None;
      derivative := None;
      evidence, facts := [], [];
      ledger := map[];
    }

    method Rollback(before: Rows)
      modifies this
      ensures Contents() == before
    {
      document, workflow, derivative := before.document, before.workflow, before.derivative;
      evidence, facts, ledger := before.evidence, before.facts, before.ledger;
    }

    /** Under a new key, any other version or status than the expected one is a conflict that changes nothing. */
    method CompleteDocumentUpload(input: UploadInput) returns (result: Result<Response>)
      modifies this
      ensures input.idempotencyKey !in old(ledger)
              && (old(document).status != Pending || old(document).version != input.expectedVersion) ==>
                result == Err("document upload version conflict") && Contents() == old(Contents())
      ensures match CompleteUpload(old(Contents()), input)
              case Ok(committed) => Contents() == committed.rows && result == Ok(committed.response)
              case Err(error) => Contents() == old(Contents()) && result == Err(error)
    {
      var before := Contents();
      var fingerprint := UploadFingerprint(input.expectedVersion, input.ciphertextSha256);
      if input.idempotencyKey in ledger {
        var row := ledger[input.idempotencyKey];
        if row.fingerprint != fingerprint {
          return Err("document completion idempotency conflict");
        }
        return Ok(row.response);
      }
      if !(document.status == Pending && document.version == input.expectedVersion) {
        return Err("document upload version conflict");
      }
      document := document.(
        status := Quarantined,
        ciphertextSha256 := Some(input.ciphertextSha256),
        version := document.version + 1);
      if workflow.Some? {
        Rollback(before);
        return Err("duplicate key value violates unique constraint");
      }
      workflow := Some(WorkflowRun(RunPending, [], Some(Scan), 1, None));
      var response := UploadStarted(document.version, 1);
      ledger := ledger[input.idempotencyKey := LedgerRow(fingerprint, response)];
      result := Ok(response);
    }

    /** A verdict at either stale version is a conflict that changes nothing. */
    method CompleteDocumentScan(input: ScanInput) returns (result: Result<()>)
      modifies this
      ensures old(document).version != input.documentVersion ==>
        result == Err("document scan completion conflict") && Contents() == old(Contents())
      ensures old(workflow).Some? && old(workflow).value.version != input.workflowVersion ==>
        result.Err? && Contents() == old(Contents())
      ensures result.Ok? ==>
        old(document).status == Quarantined && document.status == if input.infected then Rejected else Clean
      ensures match CompleteScan(old(Contents()), input)
              case Ok(committed) => Contents() == committed.rows && result == Ok(())
              case Err(error) => Contents() == old(Contents()) && result == Err(error)
    {
      var before := Contents();
      if !(document.status == Quarantined && document.version == input.documentVersion) {
        return Err("document scan completion conflict");
      }
      document := document.(
        status := if input.infected then Rejected else Clean,
        lastErrorClass := None,
        version := document.version + 1);
      if !(workflow.Some? && workflow.value.version == input.workflowVersion
           && workflow.value.nextStep == Some(Scan)) {
        Rollback(before);
        return Err("document scan workflow conflict");
      }
      var run := workflow.value;
      workflow := Some(run.(
                       status := if input.infected then RunCompleted else RunRunning,
                       completedSteps := Appended(run.completedSteps, Scan),
                       nextStep := if input.infected then None else Some(Ocr),
                       lastErrorClass := None,
                       version := run.version + 1));
      result := Ok(());
    }

    /** A failure is noted and moves nothing: not the position, the verdict, the facts or the ledger. */
    method RecordDocumentScanFailure(errorClass: string)
      modifies this
      ensures document.status == old(document).status && document.originalDeletedAt == old(document).originalDeletedAt
      ensures derivative == old(derivative) && facts == old(facts) && evidence == old(evidence) && ledger == old(ledger)
      ensures workflow.Some? == old(workflow).Some?
      ensures workflow.Some? ==>
        && workflow.value.completedSteps == old(workflow).value.completedSteps
        && workflow.value.nextStep == old(workflow).value.nextStep
        && (old(workflow).value.status == RunCompleted ==> workflow == old(workflow))
        && (old(workflow).value.status != RunCompleted ==>
              workflow.value.status == RunFailed && workflow.value.lastErrorClass.Some?
              && |workflow.value.lastErrorClass.value| <= 120 && workflow.value.version > old(workflow).value.version)
      ensures Consistent(old(Contents())) ==> Consistent(Contents()) && OnlyAdvances(old(Contents()), Contents())
      ensures Contents() == RecordFailure(old(Contents()), errorClass)
    {
      var text := if |errorClass| > 120 then errorClass[..120] else errorClass;
      if document.status == Quarantined {
        document := document.(lastErrorClass := Some(text), version := document.version + 1);
      }
      if workflow.Some? && workflow.value.status != RunCompleted {
        workflow := Some(workflow.value.(
                         status := RunFailed,
                         lastErrorClass := Some(text),
                         version := workflow.value.version + 1));
      }
      assert Contents() == RecordFailure(old(Contents()), errorClass);
      if Consistent(old(Contents())) {
        FailureKeepsPosition(old(Contents()), errorClass);
      }
    }

    /** A stale version, or another digest than the recorded one, is a conflict that changes nothing. */
    method CompleteDocumentOcr(input: OcrInput) returns (result: Result<()>)
      modifies this
      ensures old(workflow).Some? && old(workflow).value.version != input.workflowVersion ==>
        result.Err? && Contents() == old(Contents())
      ensures old(derivative).Some? && old(derivative) != Some(input.ciphertextSha256) ==>
        result == Err("document OCR derivative conflict") && Contents() == old(Contents())
      ensures result.Ok? ==> derivative == Some(input.ciphertextSha256)
      ensures match CompleteOcr(old(Contents()), input)
              case Ok(committed) => Contents() == committed.rows && result == Ok(())
              case Err(error) => Contents() == old(Contents()) && result == Err(error)
    {
      var before := Contents();
      if derivative.None? {
        derivative := Some(input.ciphertextSha256);
      }
      if derivative != Some(input.ciphertextSha256) {
        Rollback(before);
        return Err("document OCR derivative conflict");
      }
      if !(workflow.Some? && workflow.value.version == input.workflowVersion
           && workflow.value.nextStep == Some(Ocr)) {
        Rollback(before);
        return Err("document OCR workflow conflict");
      }
      var run := workflow.value;
      workflow := Some(run.(
                       status := RunRunning,
                       completedSteps := Appended(run.completedSteps, Ocr),
                       nextStep := Some(if document.deleteOriginalAfterProcessing
                                        then DeleteOriginal else Classification),
                       lastErrorClass := None,
                       version := run.version + 1));
      result := Ok(());
    }

    /** The first recorded time stays. */
    method CompleteDocumentOriginalDeletion(deletedAt: int) returns (result: Result<()>)
      modifies this
      ensures result.Ok? && document.deleteOriginalAfterProcessing ==>
        document.originalDeletedAt
        == if old(document).originalDeletedAt.Some? then old(document).originalDeletedAt else Some(deletedAt)
      ensures match CompleteOriginalDeletion(old(Contents()), deletedAt)
              case Ok(committed) => Contents() == committed.rows && result == Ok(())
              case Err(error) => Contents() == old(Contents()) && result == Err(error)
    {
      var before := Contents();
      if document.deleteOriginalAfterProcessing {
        document := document.(
          originalDeletedAt := if document.originalDeletedAt.Some?
                               then document.originalDeletedAt else Some(deletedAt),
          version := if document.originalDeletedAt.None? then document.version + 1 else document.version);
      }
      if workflow.Some? && workflow.value.nextStep == Some(DeleteOriginal) {
        var run := workflow.value;
        workflow := Some(run.(
                         status := RunRunning,
                         completedSteps := Appended(run.completedSteps, DeleteOriginal),
                         nextStep := Some(Classification),
                         lastErrorClass := None,
                         version := run.version + 1));
      } else if !(workflow.Some? && DeleteOriginal in workflow.value.completedSteps) {
        Rollback(before);
        return Err("document original deletion conflict");
      }
      result := Ok(());
    }

    /** The inserts of the loop over the candidates; a repeated key stops them. */
    method InsertCandidates(candidates: seq<Candidate>) returns (inserted: bool)
      modifies `evidence, `facts
      ensures inserted == FreshKeys(old(evidence), old(facts), candidates)
      ensures inserted ==>
        evidence == old(evidence) + EvidenceIds(candidates) && facts == old(facts) + candidates
    {
      ghost var evidenceBefore, factsBefore := evidence, facts;
      var i := 0;
      while i < |candidates|
        invariant 0 <= i <= |candidates|
        invariant evidence == evidenceBefore + EvidenceIds(candidates[..i]) && facts == factsBefore + candidates[..i]
        invariant FreshKeys(evidenceBefore, factsBefore, candidates[..i])
      {
        var candidate := candidates[i];
        if candidate.evidenceId in evidence || exists fact :: fact in facts && fact.id == candidate.id {
          ghost var prefix := candidates[..i];
          if candidate.evidenceId in evidence && candidate.evidenceId !in evidenceBefore {
            assert candidate.evidenceId in EvidenceIds(prefix);
            ghost var j :| 0 <= j < |prefix| && EvidenceIds(prefix)[j] == candidate.evidenceId;
            assert candidates[j].evidenceId == candidates[i].evidenceId;
          }
          assert !FreshKeys(evidenceBefore, factsBefore, candidates);
          return false;
        }
        evidence := evidence + [candidate.evidenceId];
        facts := facts + [candidate];
        assert candidates[..i + 1] == candidates[..i] + [candidate];
        assert EvidenceIds(candidates[..i + 1]) == EvidenceIds(candidates[..i]) + [candidate.evidenceId];
        forall j | 0 <= j < i
          ensures candidates[j].evidenceId != candidate.evidenceId && candidates[j].id != candidate.id
        {
          assert EvidenceIds(candidates[..i])[j] == candidates[j].evidenceId;
          assert (factsBefore + candidates[..i])[|factsBefore| + j] == candidates[j];
        }
        i := i + 1;
      }
      assert candidates[..i] == candidates;
      inserted := true;
    }

    /** Under a new key, a stale version is a conflict that changes nothing. */
    method CompleteManualDocumentExtraction(input: ExtractionInput) returns (result: Result<Response>)
      modifies this
      ensures input.idempotencyKey !in old(ledger) && old(workflow).Some?
              && old(workflow).value.version != input.expectedWorkflowVersion ==>
                result == Err("manual extraction workflow conflict") && Contents() == old(Contents())
      ensures match CompleteExtraction(old(Contents()), input)
              case Ok(committed) => Contents() == committed.rows && result == Ok(committed.response)
              case Err(error) => Contents() == old(Contents()) && result == Err(error)
    {
      var before := Contents();
      var fingerprint := ExtractionFingerprint(input.requestFingerprint);
      if input.idempotencyKey in ledger {
        var row := ledger[input.idempotencyKey];
        if row.fingerprint != fingerprint {
          return Err("manual extraction idempotency conflict");
        }
        return Ok(row.response);
      }
      if !(workflow.Some? && document.status == Clean
           && workflow.value.nextStep == Some(Classification)
           && workflow.value.version == input.expectedWorkflowVersion) {
        return Err("manual extraction workflow conflict");
      }
      var inserted := InsertCandidates(input.candidates);
      if !inserted {
        Rollback(before);
        return Err("duplicate key value violates unique constraint");
      }
      var run := workflow.value;
      workflow := Some(run.(
                       status := RunCompleted,
                       completedSteps := run.completedSteps + [Classification, ManualExtraction],
                       nextStep := None,
                       lastErrorClass := None,
                       version := run.version + 1));
      var response := Extracted(input.candidates);
      ledger := ledger[input.idempotencyKey := LedgerRow(fingerprint, response)];
      result := Ok(response);
    }
  }
}

/**
 Document processing as a step relation: any number of workers run the scan and OCR
 handlers over one document's rows and its two stored objects. One action is one
 committed transaction or one object-store call; workers keep stale snapshots, may fail
 after any call, and may disappear at any point. `Execute` folds the actions, so a
 theorem about `Execute(Initial(..), actions)` holds of every interleaving.
 */
module DocumentProtocol {
  import opened Prelude
  import opened DocumentTables

  datatype Original = Absent | Stored(clean: bool)

  /** The fields of `getDocumentProcessingInput` the handlers branch on or send back. */
  datatype Snapshot = Snapshot(
    status: DocumentStatus,
    version: nat,
    deleteOriginal: bool,
    workflowVersion: nat,
    nextStep: Option<Step>)

  /** Where a worker is between two calls. */
  datatype Worker =
    | Idle
    | ScanLoaded(input: Snapshot)
    | ScanFetched(input: Snapshot)
    | ScanInfected(input: Snapshot)
    | ScanTagged(input: Snapshot)
    | OcrLoaded(input: Snapshot)
    | OcrFetched(input: Snapshot)
    | DerivativePut(input: Snapshot, digest: string)
    | DeletionDue
    | OriginalDeleted
    | Failing

  datatype System = System(
    rows: Rows,
    original: Original,
    derivativeObject: Option<string>,
    uploadChecked: bool,
    workers: map<nat, Worker>,
    lateUpload: bool,   // history: the client stored the original again after completing the upload
    overlap: bool)      // history: an OCR attempt began while another one was still alive

  datatype Action =
    | ClientUpload
    | CheckUpload
    | CommitUpload(upload: UploadInput)
    | CommitExtraction(extraction: ExtractionInput)
    | LoadForScan(w: nat)
    | LoadForOcr(w: nat)
    | Fetch(w: nat)
    | FindMalware(w: nat)
    | TagClean(w: nat)
    | CommitScan(w: nat)
    | PutDerivative(w: nat, digest: string)
    | CommitOcr(w: nat)
    | DeleteOriginalObject(w: nat)
    | CommitDeletion(w: nat, deletedAt: int)
    | Throw(w: nat)
    | CommitFailure(w: nat, errorClass: string)
    | Crash(w: nat)

  function Initial(deleteOriginal: bool): System {
    System(Rows(Document(Pending, 1, deleteOriginal, None, None, None), None, None, [], [], map[]),
           Absent, None, false, map[], false, false)
  }

  function At(s: System, w: nat): Worker {
    if w in s.workers then s.workers[w] else Idle
  }

  function Move(s: System, w: nat, to: Worker): System {
    s.(workers := s.workers[w := to])
  }

  /** The worker is between reading the original for OCR and committing the derivative. */
  predicate InOcr(worker: Worker) {
    worker.OcrLoaded? || worker.OcrFetched? || worker.DerivativePut?
  }

  predicate SomeoneInOcr(s: System) {
    exists w :: w in s.workers && InOcr(s.workers[w])
  }

  function ReadInput(rows: Rows): Option<Snapshot> {
    match rows.workflow
    case None => None
    case Some(run) =>
      Some(Snapshot(rows.document.status, rows.document.version,
                    rows.document.deleteOriginalAfterProcessing, run.version, run.nextStep))
  }

  /** `createDocumentScanWorkflowHandler` up to its first object-store call. */
  function LoadScan(s: System, w: nat): System {
    match ReadInput(s.rows)
    case None => s
    case Some(input) =>
      if input.status == Clean || input.status == Rejected || input.nextStep != Some(Scan) then s
      else if input.status != Quarantined then Move(s, w, Failing)
      else Move(s, w, ScanLoaded(input))
  }

  /** `createDocumentOcrWorkflowHandler` up to its first object-store call. */
  function LoadOcr(s: System, w: nat): System {
    match ReadInput(s.rows)
    case None => s
    case Some(input) =>
      if input.nextStep == Some(DeleteOriginal) then Move(s, w, DeletionDue)
      else if input.nextStep != Some(Ocr) then s
      else if input.status != Clean then Move(s, w, Failing)
      else Move(s.(overlap := s.overlap || SomeoneInOcr(s)), w, OcrLoaded(input))
  }

  function FetchOriginal(s: System, w: nat): System {
    match At(s, w)
    case ScanLoaded(input) => Move(s, w, if s.original.Absent? then Failing else ScanFetched(input))
    case OcrLoaded(input) => Move(s, w, if s.original.Absent? then Failing else OcrFetched(input))
    case _ => s
  }

  function ScanCommit(s: System, w: nat): System {
    match At(s, w)
    case ScanInfected(input) => CommitVerdict(s, w, ScanInput(input.version, input.workflowVersion, true))
    case ScanTagged(input) => CommitVerdict(s, w, ScanInput(input.version, input.workflowVersion, false))
    case _ => s
  }

  function CommitVerdict(s: System, w: nat, input: ScanInput): System {
    match CompleteScan(s.rows, input)
    case Ok(committed) => Move(s.(rows := committed.rows), w, Idle)
    case Err(_) => Move(s, w, Failing)
  }

  function OcrCommit(s: System, w: nat): System {
    match At(s, w)
    case DerivativePut(input, digest) =>
      (match CompleteOcr(s.rows, OcrInput(input.workflowVersion, digest))
       case Ok(committed) =>
         Move(s.(rows := committed.rows), w, if input.deleteOriginal then DeletionDue else Idle)
       case Err(_) => Move(s, w, Failing))
    case _ => s
  }

  function DeletionCommit(s: System, w: nat, deletedAt: int): System {
    match CompleteOriginalDeletion(s.rows, deletedAt)
    case Ok(committed) => Move(s.(rows := committed.rows), w, Idle)
    case Err(_) => Move(s, w, Failing)
  }

  /** One action; an action whose guard is false leaves the system as it is. */
  function Apply(s: System, a: Action): System {
    match a
    case ClientUpload =>
      s.(original := Stored(false), lateUpload := s.lateUpload || s.rows.document.status != Pending)
    case CheckUpload =>
      if s.original.Stored? then s.(uploadChecked := true) else s
    case CommitUpload(upload) =>
      if !s.uploadChecked then s
      else (match CompleteUpload(s.rows, upload)
            case Ok(committed) => s.(rows := committed.rows)
            case Err(_) => s)
    case CommitExtraction(extraction) =>
      (match CompleteExtraction(s.rows, extraction)
       case Ok(committed) => s.(rows := committed.rows)
       case Err(_) => s)
    case LoadForScan(w) => if At(s, w).Idle? then LoadScan(s, w) else s
    case LoadForOcr(w) => if At(s, w).Idle? then LoadOcr(s, w) else s
    case Fetch(w) => FetchOriginal(s, w)
    case FindMalware(w) =>
      if At(s, w).ScanFetched? then Move(s, w, ScanInfected(At(s, w).input)) else s
    case TagClean(w) =>
      if !At(s, w).ScanFetched? then s
      else if s.original.Absent? then Move(s, w, Failing)
      else Move(s.(original := Stored(true)), w, ScanTagged(At(s, w).input))
    case CommitScan(w) => ScanCommit(s, w)
    case PutDerivative(w, digest) =>
      if At(s, w).OcrFetched?
      then Move(s.(derivativeObject := Some(digest)), w, DerivativePut(At(s, w).input, digest))
      else s
    case CommitOcr(w) => OcrCommit(s, w)
    case DeleteOriginalObject(w) =>
      if At(s, w).DeletionDue? then Move(s.(original := Absent), w, OriginalDeleted) else s
    case CommitDeletion(w, deletedAt) =>
      if At(s, w).OriginalDeleted? then DeletionCommit(s, w, deletedAt) else s
    case Throw(w) => if s.rows.workflow.Some? then Move(s, w, Failing) else s
    case CommitFailure(w, errorClass) =>
      if At(s, w).Failing? then Move(s.(rows := RecordFailure(s.rows, errorClass)), w, Idle) else s
    case Crash(w) => Move(s, w, Idle)
  }

  function Execute(s: System, actions: seq<Action>): System {
    if actions == [] then s
    else Apply(Execute(s, actions[..|actions| - 1]), actions[|actions| - 1])
  }

  // ----- the invariant -----

  /** Everything the deletion of an original must rest on. None of it is ever undone. */
  predicate ReplacementDurable(s: System) {
    && s.rows.document.deleteOriginalAfterProcessing
    && s.rows.document.status == Clean
    && s.rows.workflow.Some? && Ocr in s.rows.workflow.value.completedSteps
    && s.rows.derivative.Some?
    && s.derivativeObject.Some?
  }

  predicate WorkerOk(s: System, worker: Worker) {
    && (!worker.Idle? ==> s.rows.document.status != Pending)
    && (worker.ScanTagged? ==> s.lateUpload || s.original != Stored(false))
    && (InOcr(worker) ==>
          && worker.input.deleteOriginal == s.rows.document.deleteOriginalAfterProcessing
          && s.rows.document.status == Clean)
    && (worker.DerivativePut? ==>
          s.derivativeObject.Some? && (s.overlap || s.derivativeObject == Some(worker.digest)))
    && (worker.DeletionDue? || worker.OriginalDeleted? ==> ReplacementDurable(s))
    && (worker.OriginalDeleted? ==> s.lateUpload || s.original.Absent?)
  }

  predicate WorkersOk(s: System) {
    forall w :: w in s.workers ==> WorkerOk(s, s.workers[w])
  }

  predicate ObjectsOk(s: System) {
    && (s.rows.document.status != Pending ==> s.uploadChecked)
    && (s.uploadChecked && s.original.Absent? ==> ReplacementDurable(s))
    && (s.rows.derivative.Some? ==> s.derivativeObject.Some?)
    && (!s.lateUpload && s.rows.document.originalDeletedAt.Some? ==> s.original.Absent?)
    && (!s.lateUpload && s.rows.document.status == Clean ==> s.original != Stored(false))
  }

  predicate AloneOk(s: System) {
    !s.overlap ==>
      && (forall v, w :: v in s.workers && w in s.workers && InOcr(s.workers[v]) && InOcr(s.workers[w]) ==> v == w)
      && (s.rows.derivative.Some? ==> !SomeoneInOcr(s) && s.derivativeObject == s.rows.derivative)
  }

  predicate Invariant(s: System) {
    Consistent(s.rows) && ObjectsOk(s) && WorkersOk(s) && AloneOk(s)
  }

  /** A worker moves and the rows stay: only the new place of that worker has to be checked. */
  lemma MoveKeepsInvariant(s: System, w: nat, to: Worker)
    requires Invariant(s) && WorkerOk(s, to)
    requires InOcr(to) ==> InOcr(At(s, w))
    ensures Invariant(Move(s, w, to))
  {
    var t := Move(s, w, to);
    assert forall v :: v in t.workers ==> v == w || (v in s.workers && t.workers[v] == s.workers[v]);
    assert SomeoneInOcr(t) ==> SomeoneInOcr(s);
  }

  /** Rows that only advance, with the objects untouched, keep what the workers rely on. */
  lemma RowsKeepInvariant(s: System, rows: Rows)
    requires Invariant(s) && Consistent(rows) && OnlyAdvances(s.rows, rows)
    requires s.rows.document.status == Pending ==> s.uploadChecked || rows.document.status == Pending
    requires rows.document.status == Clean ==> s.rows.document.status == Clean || s.lateUpload || s.original != Stored(false)
    requires rows.derivative == s.rows.derivative
    requires rows.document.originalDeletedAt.Some? ==>
               s.rows.document.originalDeletedAt.Some? || s.lateUpload || s.original.Absent?
    ensures Invariant(s.(rows := rows))
  {
    var t := s.(rows := rows);
    assert ReplacementDurable(s) ==> ReplacementDurable(t);
    forall w | w in t.workers ensures WorkerOk(t, t.workers[w]) {
      assert WorkerOk(s, s.workers[w]);
    }
    assert SomeoneInOcr(t) ==> SomeoneInOcr(s);
  }

  lemma UploadsKeepInvariant(s: System, a: Action)
    requires Invariant(s) && (a.ClientUpload? || a.CheckUpload? || a.CommitUpload? || a.CommitExtraction?)
    ensures Invariant(Apply(s, a))
  {
    if a.CommitUpload? {
      if s.uploadChecked && CompleteUpload(s.rows, a.upload).Ok? {
        UploadKeepsRows(s.rows, a.upload);
        RowsKeepInvariant(s, CompleteUpload(s.rows, a.upload).value.rows);
      }
    } else if a.CommitExtraction? {
      if CompleteExtraction(s.rows, a.extraction).Ok? {
        ExtractionKeepsRows(s.rows, a.extraction);
        RowsKeepInvariant(s, CompleteExtraction(s.rows, a.extraction).value.rows);
      }
    } else {
      var t := Apply(s, a);
      assert t.workers == s.workers && t.rows == s.rows;
      forall w | w in t.workers ensures WorkerOk(t, t.workers[w]) {
        assert WorkerOk(s, s.workers[w]);
      }
      assert SomeoneInOcr(t) ==> SomeoneInOcr(s);
    }
  }

  lemma LoadForOcrKeepsInvariant(s: System, w: nat)
    requires Invariant(s)
    ensures Invariant(Apply(s, LoadForOcr(w)))
  {
    var t := Apply(s, LoadForOcr(w));
    if At(s, w).Idle? && ReadInput(s.rows).Some? {
      var input := ReadInput(s.rows).value;
      if input.nextStep == Some(DeleteOriginal) {
        MoveKeepsInvariant(s, w, DeletionDue);
      } else if input.nextStep != Some(Ocr) {
      } else if input.status != Clean {
        MoveKeepsInvariant(s, w, Failing);
      } else {
        assert s.rows.derivative.None?;
        assert forall v :: v in t.workers ==> v == w || (v in s.workers && t.workers[v] == s.workers[v]);
        forall v | v in t.workers ensures WorkerOk(t, t.workers[v]) {
          assert v != w ==> WorkerOk(s, s.workers[v]);
        }
        if !t.overlap {
          assert forall v :: v in s.workers ==> !InOcr(s.workers[v]);
        }
      }
    }
  }

  lemma ScanKeepsInvariant(s: System, w: nat, infected: bool)
    requires Invariant(s)
    requires if infected then At(s, w).ScanInfected? else At(s, w).ScanTagged?
    ensures Invariant(Apply(s, CommitScan(w)))
  {
    assert WorkerOk(s, s.workers[w]);
    var input := ScanInput(At(s, w).input.version, At(s, w).input.workflowVersion, infected);
    if CompleteScan(s.rows, input).Ok? {
      var committed := CompleteScan(s.rows, input).value;
      ScanKeepsRows(s.rows, input);
      RowsKeepInvariant(s, committed.rows);
      MoveKeepsInvariant(s.(rows := committed.rows), w, Idle);
    } else {
      MoveKeepsInvariant(s, w, Failing);
    }
  }

  lemma PutDerivativeKeepsInvariant(s: System, w: nat, digest: string)
    requires Invariant(s) && At(s, w).OcrFetched?
    ensures Invariant(Apply(s, PutDerivative(w, digest)))
  {
    var t := Apply(s, PutDerivative(w, digest));
    assert WorkerOk(s, s.workers[w]) && InOcr(s.workers[w]);
    assert forall v :: v in t.workers ==> v == w || (v in s.workers && t.workers[v] == s.workers[v]);
    forall v | v in t.workers ensures WorkerOk(t, t.workers[v]) {
      assert v != w ==> WorkerOk(s, s.workers[v]);
      assert !s.overlap && v != w ==> !InOcr(s.workers[v]);
    }
    assert SomeoneInOcr(s);
  }

  lemma OcrKeepsWorkers(s: System, w: nat)
    requires Invariant(s) && At(s, w).DerivativePut?
    requires CompleteOcr(s.rows, OcrInput(At(s, w).input.workflowVersion, At(s, w).digest)).Ok?
    ensures var t := Apply(s, CommitOcr(w));
      && (forall v :: v in t.workers ==> WorkerOk(t, t.workers[v]))
      && (!s.overlap ==> forall v :: v in t.workers ==> !InOcr(t.workers[v]))
  {
    var t := Apply(s, CommitOcr(w));
    assert WorkerOk(s, s.workers[w]) && InOcr(s.workers[w]);
    OcrKeepsRows(s.rows, OcrInput(At(s, w).input.workflowVersion, At(s, w).digest));
    assert forall v :: v in t.workers ==> v == w || (v in s.workers && t.workers[v] == s.workers[v]);
    assert ReplacementDurable(s) ==> ReplacementDurable(t);
    forall v | v in t.workers ensures WorkerOk(t, t.workers[v]) {
      assert v != w ==> WorkerOk(s, s.workers[v]);
    }
  }

  lemma CommitOcrKeepsInvariant(s: System, w: nat)
    requires Invariant(s) && At(s, w).DerivativePut?
    ensures Invariant(Apply(s, CommitOcr(w)))
  {
    assert WorkerOk(s, s.workers[w]) && InOcr(s.workers[w]);
    var input, digest := At(s, w).input, At(s, w).digest;
    var t := Apply(s, CommitOcr(w));
    if CompleteOcr(s.rows, OcrInput(input.workflowVersion, digest)).Ok? {
      OcrKeepsRows(s.rows, OcrInput(input.workflowVersion, digest));
      OcrKeepsWorkers(s, w);
      assert ReplacementDurable(s) ==> ReplacementDurable(t);
    } else {
      MoveKeepsInvariant(s, w, Failing);
    }
  }

  lemma DeleteObjectKeepsInvariant(s: System, w: nat)
    requires Invariant(s) && At(s, w).DeletionDue?
    ensures Invariant(Apply(s, DeleteOriginalObject(w)))
  {
    assert WorkerOk(s, s.workers[w]);
    var t := Apply(s, DeleteOriginalObject(w));
    assert forall v :: v in t.workers ==> v == w || (v in s.workers && t.workers[v] == s.workers[v]);
    forall v | v in t.workers ensures WorkerOk(t, t.workers[v]) {
      assert v != w ==> WorkerOk(s, s.workers[v]);
    }
    assert SomeoneInOcr(t) ==> SomeoneInOcr(s);
  }

  lemma CommitDeletionKeepsInvariant(s: System, w: nat, deletedAt: int)
    requires Invariant(s) && At(s, w).OriginalDeleted?
    ensures Invariant(Apply(s, CommitDeletion(w, deletedAt)))
  {
    assert WorkerOk(s, s.workers[w]);
    if CompleteOriginalDeletion(s.rows, deletedAt).Ok? {
      var committed := CompleteOriginalDeletion(s.rows, deletedAt).value;
      DeletionKeepsRows(s.rows, deletedAt);
      RowsKeepInvariant(s, committed.rows);
      MoveKeepsInvariant(s.(rows := committed.rows), w, Idle);
    } else {
      MoveKeepsInvariant(s, w, Failing);
    }
  }

  lemma TagCleanKeepsInvariant(s: System, w: nat)
    requires Invariant(s) && At(s, w).ScanFetched?
    ensures Invariant(Apply(s, TagClean(w)))
  {
    assert WorkerOk(s, s.workers[w]);
    if s.original.Absent? {
      MoveKeepsInvariant(s, w, Failing);
    } else {
      var tagged := s.(original := Stored(true));
      forall v | v in tagged.workers ensures WorkerOk(tagged, tagged.workers[v]) {
        assert WorkerOk(s, s.workers[v]);
      }
      assert SomeoneInOcr(tagged) ==> SomeoneInOcr(s);
      MoveKeepsInvariant(tagged, w, ScanTagged(At(s, w).input));
    }
  }

  predicate IsScanStep(a: Action) {
    a.LoadForScan? || a.Fetch? || a.FindMalware? || a.TagClean? || a.CommitScan?
  }

  lemma ScanStepsKeepInvariant(s: System, a: Action)
    requires Invariant(s) && IsScanStep(a)
    ensures Invariant(Apply(s, a))
  {
    var w, t := a.w, Apply(s, a);
    if a.LoadForScan? {
      if t != s {
        MoveKeepsInvariant(s, w, At(t, w));
      }
    } else if a.Fetch? {
      if At(s, w).ScanLoaded? || At(s, w).OcrLoaded? {
        assert WorkerOk(s, s.workers[w]);
        MoveKeepsInvariant(s, w, At(t, w));
      }
    } else if a.FindMalware? {
      if At(s, w).ScanFetched? {
        assert WorkerOk(s, s.workers[w]);
        MoveKeepsInvariant(s, w, ScanInfected(At(s, w).input));
      }
    } else if a.TagClean? {
      if At(s, w).ScanFetched? {
        TagCleanKeepsInvariant(s, w);
      }
    } else if At(s, w).ScanInfected? {
      ScanKeepsInvariant(s, w, true);
    } else if At(s, w).ScanTagged? {
      ScanKeepsInvariant(s, w, false);
    }
  }

  lemma FailureKeepsInvariant(s: System, w: nat, errorClass: string)
    requires Invariant(s)
    ensures Invariant(Apply(s, CommitFailure(w, errorClass)))
  {
    if At(s, w).Failing? {
      FailureKeepsPosition(s.rows, errorClass);
      RowsKeepInvariant(s, RecordFailure(s.rows, errorClass));
      MoveKeepsInvariant(s.(rows := RecordFailure(s.rows, errorClass)), w, Idle);
    }
  }

  lemma StepKeepsInvariant(s: System, a: Action)
    requires Invariant(s)
    ensures Invariant(Apply(s, a))
  {
    if IsScanStep(a) {
      ScanStepsKeepInvariant(s, a);
    } else {
      match a
      case LoadForOcr(w) => LoadForOcrKeepsInvariant(s, w);
      case PutDerivative(w, digest) => if At(s, w).OcrFetched? { PutDerivativeKeepsInvariant(s, w, digest); }
      case CommitOcr(w) => if At(s, w).DerivativePut? { CommitOcrKeepsInvariant(s, w); }
      case DeleteOriginalObject(w) => if At(s, w).DeletionDue? { DeleteObjectKeepsInvariant(s, w); }
      case CommitDeletion(w, at) => if At(s, w).OriginalDeleted? { CommitDeletionKeepsInvariant(s, w, at); }
      case Throw(w) => if s.rows.workflow.Some? { MoveKeepsInvariant(s, w, Failing); }
      case CommitFailure(w, errorClass) => FailureKeepsInvariant(s, w, errorClass);
      case Crash(w) => MoveKeepsInvariant(s, w, Idle);
      case _ => UploadsKeepInvariant(s, a);
    }
  }

  lemma {:induction false} RunsKeepInvariant(deleteOriginal: bool, actions: seq<Action>)
    ensures Invariant(Execute(Initial(deleteOriginal), actions))
    decreases |actions|
  {
    if actions != [] {
      RunsKeepInvariant(deleteOriginal, actions[..|actions| - 1]);
      StepKeepsInvariant(Execute(Initial(deleteOriginal), actions[..|actions| - 1]), actions[|actions| - 1]);
    }
  }

  // ----- the theorems -----

  /**
   After the upload has completed, an original is missing only once its replacement is
   recorded and stored, whatever the workers did and however often they failed or overlapped.
   */
  lemma {:induction false} OriginalsAreDeletedSafely(deleteOriginal: bool, actions: seq<Action>)
    ensures var s := Execute(Initial(deleteOriginal), actions);
      s.rows.document.status != Pending && s.original.Absent? ==>
        && s.rows.document.deleteOriginalAfterProcessing
        && s.rows.document.status == Clean
        && s.rows.workflow.Some? && Ocr in s.rows.workflow.value.completedSteps
        && s.rows.derivative.Some? && s.derivativeObject.Some?
  {
    RunsKeepInvariant(deleteOriginal, actions);
  }

  /** A recorded deletion has happened, and an original recorded as clean is tagged so or gone. */
  predicate ObjectsAgree(s: System) {
    && (s.rows.document.originalDeletedAt.Some? ==> s.original.Absent?)
    && (s.rows.document.status == Clean ==> s.original.Absent? || s.original == Stored(true))
  }

  /** The rows tell the truth about the objects unless the client stored the original again. */
  lemma {:induction false} RowsDescribeObjects(deleteOriginal: bool, actions: seq<Action>)
    ensures var s := Execute(Initial(deleteOriginal), actions);
      && Consistent(s.rows)
      && (s.rows.derivative.Some? ==> s.derivativeObject.Some?)
      && (!s.lateUpload ==> ObjectsAgree(s))
  {
    RunsKeepInvariant(deleteOriginal, actions);
  }

  /** Without overlapping OCR attempts the recorded digest is the digest of the stored derivative. */
  lemma {:induction false} DerivativeDigestAgrees(deleteOriginal: bool, actions: seq<Action>)
    ensures var s := Execute(Initial(deleteOriginal), actions);
      !s.overlap && s.rows.derivative.Some? ==> s.derivativeObject == s.rows.derivative
  {
    RunsKeepInvariant(deleteOriginal, actions);
  }

  /** The rows a step leaves: those of one transaction that committed, or the ones before. */
  lemma WorkerRowsOnlyAdvance(s: System, a: Action)
    requires Invariant(s) && (a.CommitScan? || a.CommitOcr? || a.CommitDeletion? || a.CommitFailure?)
    ensures OnlyAdvances(s.rows, Apply(s, a).rows)
  {
    NothingIsTakenBack(s.rows);
    if a.CommitScan? {
      if At(s, a.w).ScanTagged? || At(s, a.w).ScanInfected? {
        var input := At(s, a.w).input;
        VerdictOnlyAdvances(s, a.w, ScanInput(input.version, input.workflowVersion, At(s, a.w).ScanInfected?));
      }
    } else if a.CommitOcr? {
      OcrOnlyAdvances(s, a.w);
    } else if a.CommitDeletion? {
      DeletionOnlyAdvances(s, a.w, a.deletedAt);
    } else {
      FailureKeepsPosition(s.rows, a.errorClass);
    }
  }

  lemma RowsOnlyAdvance(s: System, a: Action)
    requires Invariant(s)
    ensures OnlyAdvances(s.rows, Apply(s, a).rows)
  {
    if a.CommitScan? || a.CommitOcr? || a.CommitDeletion? || a.CommitFailure? {
      WorkerRowsOnlyAdvance(s, a);
    } else if a.CommitUpload? {
      NothingIsTakenBack(s.rows);
      if CompleteUpload(s.rows, a.upload).Ok? {
        UploadKeepsRows(s.rows, a.upload);
      }
    } else if a.CommitExtraction? {
      NothingIsTakenBack(s.rows);
      if CompleteExtraction(s.rows, a.extraction).Ok? {
        ExtractionKeepsRows(s.rows, a.extraction);
      }
    } else {
      assert Apply(s, a).rows == s.rows;
      NothingIsTakenBack(s.rows);
    }
  }

  lemma VerdictOnlyAdvances(s: System, w: nat, input: ScanInput)
    requires Consistent(s.rows)
    ensures OnlyAdvances(s.rows, CommitVerdict(s, w, input).rows)
  {
    if CompleteScan(s.rows, input).Ok? {
      ScanKeepsRows(s.rows, input);
    } else {
      NothingIsTakenBack(s.rows);
    }
  }

  lemma OcrOnlyAdvances(s: System, w: nat)
    requires Consistent(s.rows)
    ensures OnlyAdvances(s.rows, Apply(s, CommitOcr(w)).rows)
  {
    NothingIsTakenBack(s.rows);
    if At(s, w).DerivativePut? {
      var input := OcrInput(At(s, w).input.workflowVersion, At(s, w).digest);
      if CompleteOcr(s.rows, input).Ok? {
        OcrKeepsRows(s.rows, input);
      }
    }
  }

  lemma DeletionOnlyAdvances(s: System, w: nat, deletedAt: int)
    requires Consistent(s.rows)
    ensures OnlyAdvances(s.rows, Apply(s, CommitDeletion(w, deletedAt)).rows)
  {
    NothingIsTakenBack(s.rows);
    if CompleteOriginalDeletion(s.rows, deletedAt).Ok? {
      DeletionKeepsRows(s.rows, deletedAt);
    }
  }

  lemma NothingIsTakenBack(rows: Rows)
    ensures OnlyAdvances(rows, rows)
  {
  }

  predicate IsRejected(rows: Rows) {
    && rows.document.status == Rejected && rows.workflow.Some?
    && rows.workflow.value.completedSteps == [Scan] && rows.workflow.value.nextStep.None?
    && rows.derivative.None? && rows.document.originalDeletedAt.None? && rows.facts == [] && rows.evidence == []
  }

  lemma RejectedRows(rows: Rows)
    requires Consistent(rows) && rows.document.status == Rejected
    ensures IsRejected(rows)
  {
    assert EvidenceIds([]) == [];
  }

  lemma StepKeepsRejection(s: System, a: Action)
    requires Invariant(s) && s.rows.document.status == Rejected
    ensures Apply(s, a).rows.document.status == Rejected
  {
    RowsOnlyAdvance(s, a);
  }

  lemma RejectedIsStored(s: System)
    requires Invariant(s) && s.rows.document.status == Rejected
    ensures IsRejected(s.rows) && s.original.Stored?
  {
    RejectedRows(s.rows);
  }

  lemma {:induction false} LastStep(start: System, before: seq<Action>, later: seq<Action>)
    requires later != []
    ensures Execute(start, before + later)
         == Apply(Execute(start, before + later[..|later| - 1]), later[|later| - 1])
  {
    assert (before + later)[..|before + later| - 1] == before + later[..|later| - 1];
  }

  lemma {:induction false} RejectionStays(deleteOriginal: bool, before: seq<Action>, later: seq<Action>)
    requires Execute(Initial(deleteOriginal), before).rows.document.status == Rejected
    ensures Execute(Initial(deleteOriginal), before + later).rows.document.status == Rejected
    decreases |later|
  {
    if later == [] {
      assert before + later == before;
    } else {
      var n := |later| - 1;
      RejectionStays(deleteOriginal, before, later[..n]);
      RunsKeepInvariant(deleteOriginal, before + later[..n]);
      LastStep(Initial(deleteOriginal), before, later);
      StepKeepsRejection(Execute(Initial(deleteOriginal), before + later[..n]), later[n]);
    }
  }

  /**
   A document rejected for malware stays rejected whatever happens afterwards: it is never
   recognised or extracted from, no deletion is recorded, and its original is not removed.
   */
  lemma {:induction false} RejectionIsFinal(deleteOriginal: bool, before: seq<Action>, later: seq<Action>)
    requires Execute(Initial(deleteOriginal), before).rows.document.status == Rejected
    ensures var s := Execute(Initial(deleteOriginal), before + later);
      IsRejected(s.rows) && s.original.Stored?
  {
    RunsKeepInvariant(deleteOriginal, before + later);
    RejectionStays(deleteOriginal, before, later);
    RejectedIsStored(Execute(Initial(deleteOriginal), before + later));
  }

  lemma AdvancesOn(a: Rows, b: Rows, c: Rows)
    requires OnlyAdvances(a, b) && OnlyAdvances(b, c)
    ensures OnlyAdvances(a, c)
  {
  }

  lemma {:induction false} RunsOnlyAdvance(deleteOriginal: bool, before: seq<Action>, later: seq<Action>)
    ensures OnlyAdvances(Execute(Initial(deleteOriginal), before).rows,
                         Execute(Initial(deleteOriginal), before + later).rows)
    decreases |later|
  {
    if later == [] {
      assert before + later == before;
      NothingIsTakenBack(Execute(Initial(deleteOriginal), before).rows);
    } else {
      var n := |later| - 1;
      var s := Execute(Initial(deleteOriginal), before + later[..n]);
      RunsOnlyAdvance(deleteOriginal, before, later[..n]);
      RunsKeepInvariant(deleteOriginal, before + later[..n]);
      assert (before + later)[..|before + later| - 1] == before + later[..n];
      RowsOnlyAdvance(s, later[n]);
      AdvancesOn(Execute(Initial(deleteOriginal), before).rows, s.rows, Apply(s, later[n]).rows);
    }
  }

  /** Whatever happens after an upload was accepted, its key answers the same request alike, and no other request. */
  lemma {:induction false} UploadAnswerStays(deleteOriginal: bool, before: seq<Action>, upload: UploadInput, later: seq<Action>,
                          again: UploadInput)
    requires var s := Execute(Initial(deleteOriginal), before);
      s.uploadChecked && CompleteUpload(s.rows, upload).Ok?
    requires again.idempotencyKey == upload.idempotencyKey
    ensures
      var answer := CompleteUpload(Execute(Initial(deleteOriginal), before).rows, upload).value.response;
      var rows := Execute(Initial(deleteOriginal), before + [CommitUpload(upload)] + later).rows;
      CompleteUpload(rows, again)
      == if again == upload then Ok(Committed(rows, answer)) else Err("document completion idempotency conflict")
  {
    var start := Initial(deleteOriginal);
    var accepted := before + [CommitUpload(upload)];
    assert accepted[..|accepted| - 1] == before;
    RunsKeepInvariant(deleteOriginal, before);
    RunsOnlyAdvance(deleteOriginal, accepted, later);
    UploadIsReplayed(Execute(start, before).rows, upload, Execute(start, accepted + later).rows, again);
  }

  /** The same for an extraction: its candidates are inserted once, however often it is sent. */
  lemma {:induction false} ExtractionAnswerStays(deleteOriginal: bool, before: seq<Action>, extraction: ExtractionInput,
                              later: seq<Action>, again: ExtractionInput)
    requires CompleteExtraction(Execute(Initial(deleteOriginal), before).rows, extraction).Ok?
    requires again.idempotencyKey == extraction.idempotencyKey
    ensures
      var answer := CompleteExtraction(Execute(Initial(deleteOriginal), before).rows, extraction).value.response;
      var rows := Execute(Initial(deleteOriginal), before + [CommitExtraction(extraction)] + later).rows;
      CompleteExtraction(rows, again)
      == if again.requestFingerprint == extraction.requestFingerprint then Ok(Committed(rows, answer))
         else Err("manual extraction idempotency conflict")
  {
    var start := Initial(deleteOriginal);
    var accepted := before + [CommitExtraction(extraction)];
    assert accepted[..|accepted| - 1] == before;
    RunsKeepInvariant(deleteOriginal, before);
    RunsOnlyAdvance(deleteOriginal, accepted, later);
    ExtractionIsReplayed(Execute(start, before).rows, extraction, Execute(start, accepted + later).rows, again);
  }

  // ----- the two histories -----

  /** A client stored the original again after completing its upload. */
  predicate StoresAgain(s: System, a: Action) {
    a.ClientUpload? && s.rows.document.status != Pending
  }

  /** An OCR attempt begins while another one is alive. */
  predicate BeginsBeside(s: System, a: Action) {
    a.LoadForOcr? && At(s, a.w).Idle? && At(Apply(s, a), a.w).OcrLoaded? && SomeoneInOcr(s)
  }

  lemma FlagsStep(s: System, a: Action)
    ensures Apply(s, a).lateUpload <==> s.lateUpload || StoresAgain(s, a)
    ensures Apply(s, a).overlap <==> s.overlap || BeginsBeside(s, a)
  {
  }

  predicate StoresAgainAt(start: System, actions: seq<Action>, k: nat)
    requires k < |actions|
  {
    StoresAgain(Execute(start, actions[..k]), actions[k])
  }

  predicate BeginsBesideAt(start: System, actions: seq<Action>, k: nat)
    requires k < |actions|
  {
    BeginsBeside(Execute(start, actions[..k]), actions[k])
  }

  lemma {:induction false} EarlierStepsStay(start: System, actions: seq<Action>, n: nat, k: nat)
    requires k < n <= |actions|
    ensures StoresAgainAt(start, actions[..n], k) == StoresAgainAt(start, actions, k)
    ensures BeginsBesideAt(start, actions[..n], k) == BeginsBesideAt(start, actions, k)
  {
    assert actions[..n][..k] == actions[..k] && actions[..n][k] == actions[k];
  }

  lemma {:induction false} LastFlags(start: System, actions: seq<Action>)
    requires actions != []
    ensures var n := |actions| - 1; var s := Execute(start, actions[..n]);
      && (Execute(start, actions).lateUpload <==> s.lateUpload || StoresAgainAt(start, actions, n))
      && (Execute(start, actions).overlap <==> s.overlap || BeginsBesideAt(start, actions, n))
  {
    FlagsStep(Execute(start, actions[..|actions| - 1]), actions[|actions| - 1]);
  }

  lemma {:induction false} LateUploadFound(start: System, actions: seq<Action>) returns (k: nat)
    requires !start.lateUpload && Execute(start, actions).lateUpload
    ensures k < |actions| && StoresAgainAt(start, actions, k)
    decreases |actions|
  {
    var n := |actions| - 1;
    LastFlags(start, actions);
    if Execute(start, actions[..n]).lateUpload {
      k := LateUploadFound(start, actions[..n]);
      EarlierStepsStay(start, actions, n, k);
    } else {
      k := n;
    }
  }

  lemma {:induction false} LateUploadStays(start: System, actions: seq<Action>, k: nat)
    requires k < |actions| && StoresAgainAt(start, actions, k)
    ensures Execute(start, actions).lateUpload
    decreases |actions|
  {
    var n := |actions| - 1;
    LastFlags(start, actions);
    if k < n {
      EarlierStepsStay(start, actions, n, k);
      LateUploadStays(start, actions[..n], k);
    }
  }

  lemma {:induction false} OverlapFound(start: System, actions: seq<Action>) returns (k: nat)
    requires !start.overlap && Execute(start, actions).overlap
    ensures k < |actions| && BeginsBesideAt(start, actions, k)
    decreases |actions|
  {
    var n := |actions| - 1;
    LastFlags(start, actions);
    if Execute(start, actions[..n]).overlap {
      k := OverlapFound(start, actions[..n]);
      EarlierStepsStay(start, actions, n, k);
    } else {
      k := n;
    }
  }

  lemma {:induction false} OverlapStays(start: System, actions: seq<Action>, k: nat)
    requires k < |actions| && BeginsBesideAt(start, actions, k)
    ensures Execute(start, actions).overlap
    decreases |actions|
  {
    var n := |actions| - 1;
    LastFlags(start, actions);
    if k < n {
      EarlierStepsStay(start, actions, n, k);
      OverlapStays(start, actions[..n], k);
    }
  }

  /** The conditional claims' conditions fail of a run exactly when it holds such a step. */
  lemma {:induction false} FlagsTellWhatHappened(deleteOriginal: bool, actions: seq<Action>)
    ensures var start := Initial(deleteOriginal);
      && (Execute(start, actions).lateUpload <==> exists k :: 0 <= k < |actions| && StoresAgainAt(start, actions, k))
      && (Execute(start, actions).overlap <==> exists k :: 0 <= k < |actions| && BeginsBesideAt(start, actions, k))
  {
    var start := Initial(deleteOriginal);
    if Execute(start, actions).lateUpload {
      var k := LateUploadFound(start, actions);
    }
    if k: nat :| k < |actions| && StoresAgainAt(start, actions, k) {
      LateUploadStays(start, actions, k);
    }
    if Execute(start, actions).overlap {
      var k := OverlapFound(start, actions);
    }
    if k: nat :| k < |actions| && BeginsBesideAt(start, actions, k) {
      OverlapStays(start, actions, k);
    }
  }

  // ----- what a worker commits was decided on the rows it commits to -----

  /** The rows that worker `w` read when it last loaded its snapshot. */
  function LoadedRows(start: System, actions: seq<Action>, w: nat): Option<Rows> {
    if actions == [] then None
    else
      var before, last := actions[..|actions| - 1], actions[|actions| - 1];
      if (last.LoadForScan? || last.LoadForOcr?) && last.w == w && At(Execute(start, before), w).Idle?
      then Some(Execute(start, before).rows)
      else LoadedRows(start, before, w)
  }

  /** The later rows have higher versions wherever they differ. */
  predicate Follows(loaded: Rows, now: Rows) {
    && loaded.document.version <= now.document.version
    && (loaded.document.version == now.document.version ==> loaded.document == now.document)
    && (loaded.workflow.Some? ==>
          && now.workflow.Some? && loaded.workflow.value.version <= now.workflow.value.version
          && (loaded.workflow.value.version == now.workflow.value.version ==> loaded.workflow == now.workflow))
  }

  lemma FollowsOn(loaded: Rows, now: Rows, next: Rows)
    requires Follows(loaded, now) && CountsUp(now, next)
    ensures Follows(loaded, next)
  {
  }

  lemma WorkerStepCountsUp(s: System, a: Action)
    requires a.CommitScan? || a.CommitOcr? || a.CommitDeletion? || a.CommitFailure?
    ensures CountsUp(s.rows, Apply(s, a).rows)
  {
    if a.CommitScan? && (At(s, a.w).ScanTagged? || At(s, a.w).ScanInfected?) {
      var input := At(s, a.w).input;
      ScanCountsUp(s.rows, ScanInput(input.version, input.workflowVersion, At(s, a.w).ScanInfected?), "");
    } else if a.CommitOcr? && At(s, a.w).DerivativePut? {
      OcrCountsUp(s.rows, OcrInput(At(s, a.w).input.workflowVersion, At(s, a.w).digest), 0);
    } else if a.CommitDeletion? {
      OcrCountsUp(s.rows, OcrInput(0, ""), a.deletedAt);
    } else if a.CommitFailure? {
      ScanCountsUp(s.rows, ScanInput(0, 0, false), a.errorClass);
    }
  }

  lemma StepCountsUp(s: System, a: Action)
    ensures CountsUp(s.rows, Apply(s, a).rows)
  {
    if a.CommitScan? || a.CommitOcr? || a.CommitDeletion? || a.CommitFailure? {
      WorkerStepCountsUp(s, a);
    } else if a.CommitUpload? {
      ClientTransactionsCountUp(s.rows, a.upload, ExtractionInput(0, "", "", []));
    } else if a.CommitExtraction? {
      ClientTransactionsCountUp(s.rows, UploadInput(0, "", ""), a.extraction);
    }
  }

  predicate Scanning(worker: Worker) {
    worker.ScanLoaded? || worker.ScanFetched? || worker.ScanInfected? || worker.ScanTagged?
  }

  /** The worker goes by what it read, and what it read was due. */
  predicate GoesBy(worker: Worker, loaded: Option<Rows>, now: Rows) {
    Scanning(worker) || InOcr(worker) ==>
      && loaded.Some? && ReadInput(loaded.value) == Some(worker.input) && Follows(loaded.value, now)
      && (Scanning(worker) ==> worker.input.status == Quarantined && worker.input.nextStep == Some(Scan))
      && (InOcr(worker) ==> worker.input.nextStep == Some(Ocr))
  }

  /** Where worker `w` is after a step of worker `v`: where it was, or not reading any more. */
  predicate MovedOn(s: System, t: System, w: nat) {
    At(t, w) == At(s, w) || !(Scanning(At(t, w)) || InOcr(At(t, w)))
  }

  lemma VerdictMovesOn(s: System, v: nat, input: ScanInput, w: nat)
    ensures MovedOn(s, CommitVerdict(s, v, input), w)
  {
  }

  lemma ScanCommitMovesOn(s: System, v: nat, w: nat)
    ensures MovedOn(s, ScanCommit(s, v), w)
  {
    if At(s, v).ScanTagged? || At(s, v).ScanInfected? {
      var input := At(s, v).input;
      VerdictMovesOn(s, v, ScanInput(input.version, input.workflowVersion, At(s, v).ScanInfected?), w);
    }
  }

  lemma OcrCommitMovesOn(s: System, v: nat, w: nat)
    ensures MovedOn(s, OcrCommit(s, v), w)
  {
  }

  lemma DeletionCommitMovesOn(s: System, v: nat, deletedAt: int, w: nat)
    ensures MovedOn(s, DeletionCommit(s, v, deletedAt), w)
  {
  }

  /** A commit ends what its worker was doing, and moves no other worker. */
  lemma CommitMovesOn(s: System, a: Action, w: nat)
    requires a.CommitScan? || a.CommitOcr? || a.CommitDeletion? || a.CommitFailure?
    ensures MovedOn(s, Apply(s, a), w)
  {
    if a.CommitScan? {
      ScanCommitMovesOn(s, a.w, w);
    } else if a.CommitOcr? {
      OcrCommitMovesOn(s, a.w, w);
    } else if a.CommitDeletion? {
      DeletionCommitMovesOn(s, a.w, a.deletedAt, w);
    }
  }

  lemma ReadingStepGoesBy(s: System, a: Action, w: nat, loaded: Option<Rows>)
    requires GoesBy(At(s, w), loaded, s.rows)
    requires a.Fetch? || a.FindMalware? || a.TagClean? || a.PutDerivative?
    ensures GoesBy(At(Apply(s, a), w), loaded, s.rows)
  {
  }

  lemma OwnStepGoesBy(s: System, a: Action, w: nat, loaded: Option<Rows>)
    requires GoesBy(At(s, w), loaded, s.rows)
    requires !((a.LoadForScan? || a.LoadForOcr?) && a.w == w && At(s, w).Idle?)
    ensures GoesBy(At(Apply(s, a), w), loaded, s.rows)
  {
    if a.CommitScan? || a.CommitOcr? || a.CommitDeletion? || a.CommitFailure? {
      CommitMovesOn(s, a, w);
    } else if a.Fetch? || a.FindMalware? || a.TagClean? || a.PutDerivative? {
      ReadingStepGoesBy(s, a, w, loaded);
    } else {
      assert MovedOn(s, Apply(s, a), w);
    }
  }

  lemma LoadGoesBy(s: System, a: Action, w: nat)
    requires (a.LoadForScan? || a.LoadForOcr?) && a.w == w && At(s, w).Idle?
    ensures GoesBy(At(Apply(s, a), w), Some(s.rows), Apply(s, a).rows)
  {
  }

  lemma {:induction false} EveryWorkerGoesByWhatItRead(deleteOriginal: bool, actions: seq<Action>, w: nat)
    ensures var s := Execute(Initial(deleteOriginal), actions);
      GoesBy(At(s, w), LoadedRows(Initial(deleteOriginal), actions, w), s.rows)
    decreases |actions|
  {
    if actions != [] {
      var before, last := actions[..|actions| - 1], actions[|actions| - 1];
      var s := Execute(Initial(deleteOriginal), before);
      EveryWorkerGoesByWhatItRead(deleteOriginal, before, w);
      if (last.LoadForScan? || last.LoadForOcr?) && last.w == w && At(s, w).Idle? {
        LoadGoesBy(s, last, w);
      } else {
        var loaded := LoadedRows(Initial(deleteOriginal), before, w);
        OwnStepGoesBy(s, last, w, loaded);
        StepCountsUp(s, last);
        if loaded.Some? && Follows(loaded.value, s.rows) {
          FollowsOn(loaded.value, s.rows, Apply(s, last).rows);
        }
      }
    }
  }

  /** Whether the commit of a verdict or a derivative has changed the rows, or only made the worker fail. */
  predicate Conflicts(s: System, a: Action, w: nat) {
    Apply(s, a) == Move(s, w, Failing)
  }

  /**
   In every run a verdict commits exactly when document and workflow are the rows its worker
   loaded; if anything has touched either since, it conflicts and changes no row.
   */
  lemma {:induction false} VerdictCommitsExactlyOnLoadedRows(deleteOriginal: bool, actions: seq<Action>, w: nat)
    requires var worker := At(Execute(Initial(deleteOriginal), actions), w); worker.ScanTagged? || worker.ScanInfected?
    ensures var s := Execute(Initial(deleteOriginal), actions);
      var loaded := LoadedRows(Initial(deleteOriginal), actions, w);
      && loaded.Some?
      && (if s.rows.document == loaded.value.document && s.rows.workflow == loaded.value.workflow
          then Apply(s, CommitScan(w)).rows.document.status == (if At(s, w).ScanInfected? then Rejected else Clean)
               && At(Apply(s, CommitScan(w)), w).Idle?
          else Conflicts(s, CommitScan(w), w))
  {
    var s := Execute(Initial(deleteOriginal), actions);
    EveryWorkerGoesByWhatItRead(deleteOriginal, actions, w);
    RunsKeepInvariant(deleteOriginal, actions);
    var input := At(s, w).input;
    ScanIsAcceptedExactly(s.rows, ScanInput(input.version, input.workflowVersion, At(s, w).ScanInfected?));
  }

  /** In every run a derivative is recorded exactly when the workflow is the row its worker loaded. */
  lemma {:induction false} DerivativeCommitsExactlyOnLoadedRun(deleteOriginal: bool, actions: seq<Action>, w: nat)
    requires At(Execute(Initial(deleteOriginal), actions), w).DerivativePut?
    ensures var s := Execute(Initial(deleteOriginal), actions);
      var loaded := LoadedRows(Initial(deleteOriginal), actions, w);
      && loaded.Some?
      && (if s.rows.workflow == loaded.value.workflow
          then s.rows.derivative.None? && Apply(s, CommitOcr(w)).rows.derivative == Some(At(s, w).digest)
          else Conflicts(s, CommitOcr(w), w))
  {
    var s := Execute(Initial(deleteOriginal), actions);
    EveryWorkerGoesByWhatItRead(deleteOriginal, actions, w);
    RunsKeepInvariant(deleteOriginal, actions);
    OcrIsAcceptedExactly(s.rows, OcrInput(At(s, w).input.workflowVersion, At(s, w).digest));
  }

  /** A redelivered job whose step is not due any more touches nothing. */
  lemma LoadingWhatIsNotDueDoesNothing(s: System, w: nat)
    requires Consistent(s.rows) && At(s, w).Idle?
    ensures Apply(s, LoadForScan(w)) == s <==> s.rows.document.status != Quarantined
    ensures s.rows.document.status == Quarantined ==> At(Apply(s, LoadForScan(w)), w).ScanLoaded?
    ensures Apply(s, LoadForOcr(w)) == s <==>
      !(s.rows.workflow.Some? && s.rows.workflow.value.nextStep in {Some(Ocr), Some(DeleteOriginal)})
    ensures s.rows.workflow.Some? && s.rows.workflow.value.nextStep == Some(Ocr) ==>
      At(Apply(s, LoadForOcr(w)), w).OcrLoaded?
    ensures s.rows.workflow.Some? && s.rows.workflow.value.nextStep == Some(DeleteOriginal) ==>
      At(Apply(s, LoadForOcr(w)), w).DeletionDue?
  {
    assert At(Apply(s, LoadForScan(w)), w) != Idle ==> Apply(s, LoadForScan(w)) != s;
    assert At(Apply(s, LoadForOcr(w)), w) != Idle ==> Apply(s, LoadForOcr(w)) != s;
  }

  /** A missing object, a refused commit, or anything a call throws. */
  predicate MeetsTrouble(s: System, a: Action, w: nat) {
    match a
    case Fetch(v) => v == w && (At(s, w).ScanLoaded? || At(s, w).OcrLoaded?) && s.original.Absent?
    case TagClean(v) => v == w && At(s, w).ScanFetched? && s.original.Absent?
    case CommitScan(v) =>
      && v == w && (At(s, w).ScanInfected? || At(s, w).ScanTagged?)
      && CompleteScan(s.rows, ScanInput(At(s, w).input.version, At(s, w).input.workflowVersion, At(s, w).ScanInfected?)).Err?
    case CommitOcr(v) =>
      && v == w && At(s, w).DerivativePut?
      && CompleteOcr(s.rows, OcrInput(At(s, w).input.workflowVersion, At(s, w).digest)).Err?
    case CommitDeletion(v, deletedAt) =>
      v == w && At(s, w).OriginalDeleted? && CompleteOriginalDeletion(s.rows, deletedAt).Err?
    case Throw(v) => v == w && s.rows.workflow.Some?
    case _ => false
  }

  lemma ScansFailExactly(s: System, v: nat, w: nat)
    requires !At(s, w).Failing?
    ensures At(ScanCommit(s, v), w).Failing? <==> MeetsTrouble(s, CommitScan(v), w)
    ensures MeetsTrouble(s, CommitScan(v), w) ==> ScanCommit(s, v) == Move(s, w, Failing)
  {
  }

  lemma RecordingsFailExactly(s: System, v: nat, w: nat)
    requires !At(s, w).Failing?
    ensures At(OcrCommit(s, v), w).Failing? <==> MeetsTrouble(s, CommitOcr(v), w)
    ensures MeetsTrouble(s, CommitOcr(v), w) ==> OcrCommit(s, v) == Move(s, w, Failing)
  {
  }

  lemma DeletionsFailExactly(s: System, v: nat, w: nat, deletedAt: int)
    requires !At(s, w).Failing?
    ensures var t := Apply(s, CommitDeletion(v, deletedAt));
      && (At(t, w).Failing? <==> MeetsTrouble(s, CommitDeletion(v, deletedAt), w))
      && (MeetsTrouble(s, CommitDeletion(v, deletedAt), w) ==> t == Move(s, w, Failing))
  {
  }

  lemma CallsFailExactly(s: System, a: Action, w: nat)
    requires !At(s, w).Failing?
    requires a.Fetch? || a.FindMalware? || a.TagClean? || a.PutDerivative? || a.DeleteOriginalObject?
          || a.Throw? || a.Crash? || a.ClientUpload? || a.CheckUpload?
    ensures At(Apply(s, a), w).Failing? <==> MeetsTrouble(s, a, w)
    ensures MeetsTrouble(s, a, w) ==> Apply(s, a) == Move(s, w, Failing)
  {
  }

  lemma RowsFailNobody(s: System, a: Action, w: nat)
    requires (a.CommitUpload? || a.CommitExtraction? || a.CommitFailure?) && !At(s, w).Failing?
    ensures !At(Apply(s, a), w).Failing?
  {
  }

  lemma LoadsFailNobody(s: System, a: Action, w: nat)
    requires (a.LoadForScan? || a.LoadForOcr?) && Consistent(s.rows) && !At(s, w).Failing?
    ensures !At(Apply(s, a), w).Failing?
  {
    if At(s, a.w).Idle? {
      LoadingWhatIsNotDueDoesNothing(s, a.w);
    }
  }

  /** In consistent rows a worker comes to fail exactly by meeting trouble, and then it has changed nothing. */
  lemma WorkersFailExactly(s: System, a: Action, w: nat)
    requires Consistent(s.rows) && !At(s, w).Failing?
    ensures At(Apply(s, a), w).Failing? <==> MeetsTrouble(s, a, w)
    ensures MeetsTrouble(s, a, w) ==> Apply(s, a) == Move(s, w, Failing)
  {
    match a
    case CommitScan(v) => ScansFailExactly(s, v, w);
    case CommitOcr(v) => RecordingsFailExactly(s, v, w);
    case CommitDeletion(v, deletedAt) => DeletionsFailExactly(s, v, w, deletedAt);
    case LoadForScan(v) => LoadsFailNobody(s, a, w);
    case LoadForOcr(v) => LoadsFailNobody(s, a, w);
    case CommitUpload(_) => RowsFailNobody(s, a, w);
    case CommitExtraction(_) => RowsFailNobody(s, a, w);
    case CommitFailure(_, _) => RowsFailNobody(s, a, w);
    case _ => CallsFailExactly(s, a, w);
  }

  /** A failing worker notes its error once and is idle again; a vanished one notes nothing. */
  lemma FailureIsNotedOnce(s: System, w: nat, errorClass: string)
    ensures var t := Apply(s, CommitFailure(w, errorClass));
      if At(s, w).Failing? then At(t, w).Idle? && t.rows == RecordFailure(s.rows, errorClass) else t == s
    ensures At(Apply(s, Crash(w)), w).Idle? && Apply(s, Crash(w)).rows == s.rows
  {
  }

  /** After its last commit a worker is done; deletion follows recognition exactly if that was asked for. */
  lemma AcceptedCommitsEnd(s: System, a: Action, w: nat)
    requires (a.CommitScan? || a.CommitOcr? || a.CommitDeletion?) && a.w == w
    requires Apply(s, a) != s && !MeetsTrouble(s, a, w)
    ensures At(Apply(s, a), w)
         == if a.CommitOcr? && At(s, w).DerivativePut? && At(s, w).input.deleteOriginal then DeletionDue else Idle
  {
  }

  // ----- where the code does not meet the two conditional claims -----

  /** One more action at the end of a run. */
  lemma Then(start: System, run: seq<Action>, a: Action) returns (longer: seq<Action>)
    ensures longer == run + [a]
    ensures Execute(start, longer) == Apply(Execute(start, run), a)
  {
    longer := run + [a];
    assert longer[..|longer| - 1] == run;
  }

  /** The run of one worker that uploads a clean document and tags it, with the verdict still to commit. */
  lemma TaggedRun() returns (run: seq<Action>)
    ensures var s := Execute(Initial(true), run);
      && s.rows.document == Document(Quarantined, 2, true, None, Some("c"), None)
      && s.rows.workflow == Some(WorkflowRun(RunPending, [], Some(Scan), 1, None))
      && s.rows.derivative.None?
      && s.original == Stored(true) && !s.overlap
      && s.workers == map[0 := ScanTagged(Snapshot(Quarantined, 2, true, 1, Some(Scan)))]
  {
    var start := Initial(true);
    run := Then(start, [], ClientUpload);
    run := Then(start, run, CheckUpload);
    run := Then(start, run, CommitUpload(UploadInput(1, "c", "k")));
    var input := Snapshot(Quarantined, 2, true, 1, Some(Scan));
    assert ReadInput(Execute(start, run).rows) == Some(input);
    run := Then(start, run, LoadForScan(0));
    assert Execute(start, run).workers == map[0 := ScanLoaded(input)];
    run := Then(start, run, Fetch(0));
    assert Execute(start, run).workers == map[0 := ScanFetched(input)];
    run := Then(start, run, TagClean(0));
  }

  /** The run of one worker that uploads and scans a clean document. */
  lemma ScannedRun() returns (run: seq<Action>)
    ensures var s := Execute(Initial(true), run);
      && s.rows.document == Document(Clean, 3, true, None, Some("c"), None)
      && s.rows.workflow == Some(WorkflowRun(RunRunning, [Scan], Some(Ocr), 2, None))
      && s.rows.derivative.None?
      && s.original == Stored(true) && s.workers == map[0 := Idle] && !s.overlap
  {
    run := TaggedRun();
    assert Appended([], Scan) == [Scan];
    run := Then(Initial(true), run, CommitScan(0));
  }

  /** A client that uses its upload URL again after the scan: the row says clean, the tag does not. */
  lemma LateUploadBreaksTheTag() returns (run: seq<Action>)
    ensures var s := Execute(Initial(true), run);
      s.rows.document.status == Clean && s.original == Stored(false)
  {
    run := ScannedRun();
    run := Then(Initial(true), run, ClientUpload);
  }

  /**
   The steps that end the agreement: a client stores the original again after it is clean, or
   a scan or a deletion commits what a client has undone since the object was tagged or deleted.
   */
  predicate EndsAgreement(s: System, a: Action) {
    match a
    case ClientUpload => s.rows.document.status == Clean
    case CommitScan(w) =>
      && At(s, w).ScanTagged? && s.original == Stored(false)
      && CompleteScan(s.rows, ScanInput(At(s, w).input.version, At(s, w).input.workflowVersion, false)).Ok?
    case CommitDeletion(w, deletedAt) =>
      At(s, w).OriginalDeleted? && s.original.Stored? && CompleteOriginalDeletion(s.rows, deletedAt).Ok?
    case _ => false
  }

  lemma QuarantinedIsUndeleted(rows: Rows)
    requires Consistent(rows)
    ensures rows.document.status == Quarantined ==> rows.document.originalDeletedAt.None?
  {
  }

  lemma VerdictOnDocument(s: System, w: nat, input: ScanInput)
    ensures var u := CommitVerdict(s, w, input);
      && u.original == s.original
      && (CompleteScan(s.rows, input).Err? ==> u.rows == s.rows)
      && (CompleteScan(s.rows, input).Ok? ==>
            && s.rows.document.status == Quarantined
            && u.rows.document.status == (if input.infected then Rejected else Clean)
            && u.rows.document.originalDeletedAt == s.rows.document.originalDeletedAt)
  {
  }

  lemma VerdictAgrees(s: System, w: nat, input: ScanInput)
    requires ObjectsAgree(s)
    requires s.rows.document.status == Quarantined ==> s.rows.document.originalDeletedAt.None?
    ensures ObjectsAgree(CommitVerdict(s, w, input))
       <==> !(CompleteScan(s.rows, input).Ok? && !input.infected && s.original == Stored(false))
  {
    VerdictOnDocument(s, w, input);
  }

  lemma DeletionAgreesExactly(s: System, w: nat, deletedAt: int)
    requires Invariant(s) && ObjectsAgree(s)
    ensures ObjectsAgree(Apply(s, CommitDeletion(w, deletedAt))) <==> !EndsAgreement(s, CommitDeletion(w, deletedAt))
  {
    if At(s, w).OriginalDeleted? {
      assert WorkerOk(s, s.workers[w]);
    }
  }

  lemma OcrAgrees(s: System, w: nat)
    requires ObjectsAgree(s)
    ensures ObjectsAgree(Apply(s, CommitOcr(w)))
  {
  }

  /** In every state a run can reach, exactly these steps end the agreement of rows and objects. */
  lemma AgreementEndsExactly(s: System, a: Action)
    requires Invariant(s) && ObjectsAgree(s)
    ensures ObjectsAgree(Apply(s, a)) <==> !EndsAgreement(s, a)
  {
    if a.CommitScan? {
      QuarantinedIsUndeleted(s.rows);
      if At(s, a.w).ScanTagged? || At(s, a.w).ScanInfected? {
        var input := At(s, a.w).input;
        VerdictAgrees(s, a.w, ScanInput(input.version, input.workflowVersion, At(s, a.w).ScanInfected?));
      }
    } else if a.CommitDeletion? {
      DeletionAgreesExactly(s, a.w, a.deletedAt);
    } else if a.CommitOcr? {
      OcrAgrees(s, a.w);
    }
  }

  /** An upload between tag and verdict: the verdict commits over an untagged object. */
  lemma UploadBeforeVerdictBreaksTheTag() returns (run: seq<Action>)
    ensures var s := Execute(Initial(true), run);
      s.rows.document.status == Clean && s.original == Stored(false)
  {
    var start := Initial(true);
    run := TaggedRun();
    run := Then(start, run, ClientUpload);
    run := Then(start, run, CommitScan(0));
  }

  /** A worker has recorded its derivative and is due to delete the original. */
  lemma DeletionDueRun() returns (run: seq<Action>)
    ensures var s := Execute(Initial(true), run);
      && At(s, 0).DeletionDue? && s.rows.document.originalDeletedAt.None?
      && s.rows.document.deleteOriginalAfterProcessing
      && s.rows.workflow == Some(WorkflowRun(RunRunning, [Scan, Ocr], Some(DeleteOriginal), 3, None))
  {
    var start := Initial(true);
    run := BothFetched();
    run := Then(start, run, PutDerivative(0, "a"));
    var input := At(Execute(start, run), 0).input;
    assert At(Execute(start, run), 0) == DerivativePut(input, "a") && input.deleteOriginal;
    assert Appended([Scan], Ocr) == [Scan, Ocr];
    run := Then(start, run, CommitOcr(0));
  }

  /** An upload between the deletion and its record: the row says deleted, the object is there. */
  lemma UploadBeforeRecordRestoresTheObject() returns (run: seq<Action>)
    ensures var s := Execute(Initial(true), run);
      s.rows.document.originalDeletedAt == Some(7) && s.original.Stored?
  {
    var start := Initial(true);
    run := DeletionDueRun();
    var rows := Execute(start, run).rows;
    run := Then(start, run, DeleteOriginalObject(0));
    assert At(Execute(start, run), 0).OriginalDeleted? && Execute(start, run).rows == rows;
    run := Then(start, run, ClientUpload);
    run := Then(start, run, CommitDeletion(0, 7));
  }

  /** Two workers have read the scanned original for OCR. */
  lemma BothFetched() returns (run: seq<Action>)
    ensures var s := Execute(Initial(true), run);
      && s.rows.derivative.None? && s.rows.document.deleteOriginalAfterProcessing
      && s.rows.workflow == Some(WorkflowRun(RunRunning, [Scan], Some(Ocr), 2, None))
      && s.rows.document.originalDeletedAt.None? && s.rows.document.status == Clean
      && At(s, 0).OcrFetched? && At(s, 0).input.workflowVersion == 2 && At(s, 0).input.deleteOriginal
      && At(s, 1).OcrFetched?
  {
    var start := Initial(true);
    run := ScannedRun();
    var rows := Execute(start, run).rows;
    var input := Snapshot(Clean, 3, true, 2, Some(Ocr));
    assert ReadInput(rows) == Some(input);
    run := Then(start, run, LoadForOcr(0));
    assert At(Execute(start, run), 0) == OcrLoaded(input) && Execute(start, run).rows == rows;
    run := Then(start, run, LoadForOcr(1));
    assert At(Execute(start, run), 1) == OcrLoaded(input) && Execute(start, run).rows == rows;
    run := Then(start, run, Fetch(0));
    run := Then(start, run, Fetch(1));
  }

  /** Two overlapping attempts: the second put replaces the object under the first one's row. */
  lemma OverlapBreaksTheDigest() returns (run: seq<Action>)
    ensures var s := Execute(Initial(true), run);
      s.rows.derivative.Some? && s.derivativeObject != s.rows.derivative
  {
    var start := Initial(true);
    run := BothFetched();
    run := Then(start, run, PutDerivative(0, "a"));
    run := Then(start, run, CommitOcr(0));
    assert Execute(start, run).rows.derivative == Some("a");
    assert At(Execute(start, run), 1).OcrFetched?;
    run := Then(start, run, PutDerivative(1, "b"));
  }

  /** Row and object of the derivative agree: what is recorded is what is stored. */
  predicate DigestAgrees(s: System) {
    s.rows.derivative.Some? ==> s.derivativeObject == s.rows.derivative
  }

  /**
   The steps that end this agreement: storing another derivative over a recorded one, and
   recording a first derivative whose object another attempt has overwritten since it was stored.
   */
  predicate EndsDigestAgreement(s: System, a: Action) {
    match a
    case PutDerivative(w, digest) =>
      At(s, w).OcrFetched? && s.rows.derivative.Some? && s.rows.derivative.value != digest
    case CommitOcr(w) =>
      && At(s, w).DerivativePut? && s.rows.derivative.None? && s.derivativeObject != Some(At(s, w).digest)
      && CompleteOcr(s.rows, OcrInput(At(s, w).input.workflowVersion, At(s, w).digest)).Ok?
    case _ => false
  }

  lemma RecordingAgreesExactly(s: System, w: nat)
    requires DigestAgrees(s)
    ensures DigestAgrees(Apply(s, CommitOcr(w))) <==> !EndsDigestAgreement(s, CommitOcr(w))
  {
    if At(s, w).DerivativePut? {
      OcrOnDerivative(s.rows, OcrInput(At(s, w).input.workflowVersion, At(s, w).digest));
    }
  }

  lemma OcrOnDerivative(rows: Rows, input: OcrInput)
    ensures CompleteOcr(rows, input).Ok? ==>
      CompleteOcr(rows, input).value.rows.derivative == Some(input.ciphertextSha256)
  {
  }

  /** No transaction but the recording of a derivative touches the derivative row. */
  lemma OthersKeepDerivative(s: System, a: Action)
    requires !a.CommitOcr? && !a.PutDerivative?
    ensures Apply(s, a).rows.derivative == s.rows.derivative && Apply(s, a).derivativeObject == s.derivativeObject
  {
    match a
    case CommitScan(w) => ScanKeepsDerivative(s, w);
    case CommitDeletion(w, deletedAt) =>
    case CommitUpload(upload) =>
    case CommitExtraction(extraction) =>
    case LoadForScan(w) =>
    case LoadForOcr(w) =>
    case CommitFailure(w, errorClass) =>
    case _ =>
  }

  lemma ScanKeepsDerivative(s: System, w: nat)
    ensures ScanCommit(s, w).rows.derivative == s.rows.derivative
    ensures ScanCommit(s, w).derivativeObject == s.derivativeObject
  {
    if At(s, w).ScanTagged? || At(s, w).ScanInfected? {
      VerdictOnDerivative(s, w, ScanInput(At(s, w).input.version, At(s, w).input.workflowVersion, At(s, w).ScanInfected?));
    }
  }

  lemma VerdictOnDerivative(s: System, w: nat, input: ScanInput)
    ensures CommitVerdict(s, w, input).rows.derivative == s.rows.derivative
    ensures CommitVerdict(s, w, input).derivativeObject == s.derivativeObject
  {
  }

  /** Over all actions, exactly these two kinds of steps end the agreement of digest and object. */
  lemma DigestAgreementEndsExactly(s: System, a: Action)
    requires DigestAgrees(s)
    ensures DigestAgrees(Apply(s, a)) <==> !EndsDigestAgreement(s, a)
  {
    if a.CommitOcr? {
      RecordingAgreesExactly(s, a.w);
    } else if !a.PutDerivative? {
      OthersKeepDerivative(s, a);
    }
  }

  /** Both puts come before any row is recorded, and the first attempt records what the second overwrote. */
  lemma RecordingBreaksTheDigest() returns (run: seq<Action>)
    ensures var s := Execute(Initial(true), run);
      s.rows.derivative == Some("a") && s.derivativeObject == Some("b")
  {
    var start := Initial(true);
    run := BothFetched();
    run := Then(start, run, PutDerivative(0, "a"));
    assert At(Execute(start, run), 1).OcrFetched? && Execute(start, run).rows.derivative.None?;
    run := Then(start, run, PutDerivative(1, "b"));
    var input := At(Execute(start, run), 0).input;
    assert At(Execute(start, run), 0) == DerivativePut(input, "a") && input.workflowVersion == 2;
    run := Then(start, run, CommitOcr(0));
  }
}

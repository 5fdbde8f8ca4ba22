/**
 The two document handlers as the statements of the worker, running over a world that
 other workers and the client change between any two calls. Each handler is shown to be a
 run of the step relation, so the theorems of `DocumentProtocol` hold at every point of
 it; and one undisturbed job takes an uploaded document all the way to classification.
 */
module DocumentWorker {
  import opened Prelude
  import opened DocumentTables
  import opened DocumentProtocol

  function Actor(a: Action): Option<nat> {
    match a
    case ClientUpload => None
    case CheckUpload => None
    case CommitUpload(_) => None
    case CommitExtraction(_) => None
    case LoadForScan(w) => Some(w)
    case LoadForOcr(w) => Some(w)
    case Fetch(w) => Some(w)
    case FindMalware(w) => Some(w)
    case TagClean(w) => Some(w)
    case CommitScan(w) => Some(w)
    case PutDerivative(w, _) => Some(w)
    case CommitOcr(w) => Some(w)
    case DeleteOriginalObject(w) => Some(w)
    case CommitDeletion(w, _) => Some(w)
    case Throw(w) => Some(w)
    case CommitFailure(w, _) => Some(w)
    case Crash(w) => Some(w)
  }

  predicate NotBy(w: nat, actions: seq<Action>) {
    forall i :: 0 <= i < |actions| ==> Actor(actions[i]) != Some(w)
  }

  lemma CommitKeepsOthers(s: System, w: nat, a: Action)
    requires (a.CommitScan? || a.CommitOcr? || a.CommitDeletion?) && a.w != w
    ensures At(Apply(s, a), w) == At(s, w)
  {
  }

  lemma OtherKeepsWorker(s: System, w: nat, a: Action)
    requires Actor(a) != Some(w)
    ensures At(Apply(s, a), w) == At(s, w)
  {
    if a.CommitScan? || a.CommitOcr? || a.CommitDeletion? {
      CommitKeepsOthers(s, w, a);
    }
  }

  lemma {:induction false} OthersKeepWorker(s: System, w: nat, actions: seq<Action>)
    requires NotBy(w, actions)
    ensures At(Execute(s, actions), w) == At(s, w)
    decreases |actions|
  {
    if actions != [] {
      var n := |actions| - 1;
      OthersKeepWorker(s, w, actions[..n]);
      OtherKeepsWorker(Execute(s, actions[..n]), w, actions[n]);
    }
  }

  lemma {:induction false} ExecuteAppends(s: System, first: seq<Action>, second: seq<Action>)
    ensures Execute(s, first + second) == Execute(Execute(s, first), second)
    decreases |second|
  {
    if second == [] {
      assert first + second == first;
    } else {
      var n := |second| - 1;
      assert (first + second)[..|first| + n] == first + second[..n];
      ExecuteAppends(s, first, second[..n]);
    }
  }

  class World {
    var state: System
    ghost const start: System
    ghost var history: seq<Action>

    ghost predicate Valid()
      reads this
    {
      state == Execute(start, history)
    }

    constructor (s: System)
      ensures Valid() && state == s && start == s && history == []
    {
      state, start, history := s, s, [];
    }

    method Perform(a: Action)
      requires Valid()
      modifies this
      ensures Valid() && history == old(history) + [a] && state == Apply(old(state), a)
    {
      state := Apply(state, a);
      history := history + [a];
      assert history[..|history| - 1] == old(history);
    }

    /** `getDocumentProcessingInput` by the scan handler; reading and choosing what to do is one step. */
    method ReadForScan(w: nat) returns (input: Option<Snapshot>)
      requires Valid() && At(state, w).Idle?
      modifies this
      ensures Valid() && old(history) <= history
      ensures input == ReadInput(state.rows) && state.rows == old(state.rows) && state.original == old(state.original)
      ensures At(state, w) == match input {
        case None => Idle
        case Some(x) =>
          if x.status == Clean || x.status == Rejected || x.nextStep != Some(Scan) then Idle
          else if x.status != Quarantined then Failing else ScanLoaded(x)
      }
    {
      input := ReadInput(state.rows);
      Perform(LoadForScan(w));
    }

    method ReadForOcr(w: nat) returns (input: Option<Snapshot>)
      requires Valid() && At(state, w).Idle?
      modifies this
      ensures Valid() && old(history) <= history
      ensures input == ReadInput(state.rows) && state.rows == old(state.rows) && state.original == old(state.original)
      ensures At(state, w) == match input {
        case None => Idle
        case Some(x) =>
          if x.nextStep == Some(DeleteOriginal) then DeletionDue
          else if x.nextStep != Some(Ocr) then Idle
          else if x.status != Clean then Failing else OcrLoaded(x)
      }
    {
      input := ReadInput(state.rows);
      Perform(LoadForOcr(w));
    }

    method GetCiphertext(w: nat) returns (present: bool)
      requires Valid() && (At(state, w).ScanLoaded? || At(state, w).OcrLoaded?)
      modifies this
      ensures Valid() && old(history) <= history
      ensures present == state.original.Stored?
      ensures state.rows == old(state.rows) && state.original == old(state.original)
      ensures At(state, w) ==
              if !present then Failing
              else if At(old(state), w).ScanLoaded? then ScanFetched(At(old(state), w).input)
              else OcrFetched(At(old(state), w).input)
    {
      present := state.original.Stored?;
      Perform(Fetch(w));
    }

    /** The scanner's verdict; a clean object is tagged, which fails when it is gone. */
    method Judge(w: nat, infected: bool) returns (judged: bool)
      requires Valid() && At(state, w).ScanFetched?
      modifies this
      ensures Valid() && old(history) <= history && state.rows == old(state.rows)
      ensures judged == (infected || old(state.original).Stored?)
      ensures state.original == if infected || !judged then old(state.original) else Stored(true)
      ensures At(state, w) == if !judged then Failing
                              else if infected then ScanInfected(At(old(state), w).input)
                              else ScanTagged(At(old(state), w).input)
    {
      judged := infected || state.original.Stored?;
      Perform(if infected then FindMalware(w) else TagClean(w));
    }

    method CompleteDocumentScan(w: nat) returns (committed: bool)
      requires Valid() && (At(state, w).ScanInfected? || At(state, w).ScanTagged?)
      modifies this
      ensures Valid() && old(history) <= history && state.original == old(state.original)
      ensures At(state, w) == if committed then Idle else Failing
      ensures var from := At(old(state), w);
        match CompleteScan(old(state).rows, ScanInput(from.input.version, from.input.workflowVersion, from.ScanInfected?))
        case Ok(done) => committed && state.rows == done.rows
        case Err(_) => !committed && state.rows == old(state).rows
    {
      Perform(CommitScan(w));
      committed := At(state, w).Idle?;
    }

    method PutDocumentDerivative(w: nat, digest: string)
      requires Valid() && At(state, w).OcrFetched?
      modifies this
      ensures Valid() && old(history) <= history
      ensures state.rows == old(state.rows) && state.original == old(state.original)
      ensures state.derivativeObject == Some(digest)
      ensures At(state, w) == DerivativePut(At(old(state), w).input, digest)
    {
      Perform(PutDerivative(w, digest));
    }

    method CompleteDocumentOcr(w: nat) returns (committed: bool)
      requires Valid() && At(state, w).DerivativePut?
      modifies this
      ensures Valid() && old(history) <= history
      ensures state.original == old(state.original) && state.derivativeObject == old(state.derivativeObject)
      ensures var from := At(old(state), w);
        && At(state, w) == (if !committed then Failing else if from.input.deleteOriginal then DeletionDue else Idle)
        && match CompleteOcr(old(state).rows, OcrInput(from.input.workflowVersion, from.digest))
           case Ok(done) => committed && state.rows == done.rows
           case Err(_) => !committed && state.rows == old(state).rows
    {
      Perform(CommitOcr(w));
      committed := !At(state, w).Failing?;
    }

    method DeleteObject(w: nat)
      requires Valid() && At(state, w).DeletionDue?
      modifies this
      ensures Valid() && old(history) <= history && At(state, w).OriginalDeleted?
      ensures state.rows == old(state.rows) && state.derivativeObject == old(state.derivativeObject)
      ensures state.original.Absent?
    {
      Perform(DeleteOriginalObject(w));
    }

    method CompleteDocumentOriginalDeletion(w: nat, deletedAt: int) returns (committed: bool)
      requires Valid() && At(state, w).OriginalDeleted?
      modifies this
      ensures Valid() && old(history) <= history
      ensures state.original == old(state.original) && state.derivativeObject == old(state.derivativeObject)
      ensures At(state, w) == if committed then Idle else Failing
      ensures match CompleteOriginalDeletion(old(state).rows, deletedAt)
              case Ok(done) => committed && state.rows == done.rows
              case Err(_) => !committed && state.rows == old(state).rows
    {
      Perform(CommitDeletion(w, deletedAt));
      committed := At(state, w).Idle?;
    }

    /** The catch block: record the failure of a document that had been read. */
    method RecordFailure(w: nat, errorClass: string)
      requires Valid() && At(state, w).Failing?
      modifies this
      ensures Valid() && history == old(history) + [CommitFailure(w, errorClass)] && At(state, w).Idle?
      ensures state.rows == DocumentTables.RecordFailure(old(state).rows, errorClass)
      ensures state.original == old(state.original)
    {
      Perform(CommitFailure(w, errorClass));
    }

    /** Anything the client and the other workers do between two calls of `w`. */
    method Interfere(w: nat, others: seq<Action>)
      requires Valid() && NotBy(w, others)
      modifies this
      ensures Valid() && old(history) <= history && (others == [] ==> state == old(state))
      ensures state == Execute(old(state), others) && At(state, w) == At(old(state), w)
    {
      OthersKeepWorker(state, w, others);
      ExecuteAppends(start, history, others);
      state := Execute(state, others);
      history := history + others;
    }
  }

  /** The last thing that happened is that the worker recorded its failure. */
  predicate EndsInRecord(before: seq<Action>, after: seq<Action>, w: nat) {
    |before| < |after| && after[|after| - 1].CommitFailure? && after[|after| - 1].w == w
  }

  method RecordAndThrow(world: World, w: nat, errorClass: string, others: seq<Action>) returns (thrown: bool)
    requires world.Valid() && At(world.state, w).Failing? && NotBy(w, others)
    modifies world
    ensures world.Valid() && At(world.state, w).Idle? && old(world.history) <= world.history && thrown
    ensures EndsInRecord(old(world.history), world.history, w)
  {
    world.Interfere(w, others);
    world.RecordFailure(w, errorClass);
    thrown := true;
  }

  /** The scan would succeed if nothing interfered. */
  predicate ReadyToScan(s: System) {
    Consistent(s.rows) && s.rows.document.status == Quarantined && s.original.Stored?
  }

  predicate ReadyForOcr(s: System) {
    && Consistent(s.rows) && DueForOcr(s.rows)
    && s.original == Stored(true)
  }

  predicate ReadyForDeletion(s: System) {
    && Consistent(s.rows) && s.rows.workflow.Some?
    && s.rows.workflow.value.nextStep == Some(DeleteOriginal)
  }

  predicate AwaitsClassification(s: System) {
    s.rows.workflow.Some? && s.rows.workflow.value.nextStep == Some(Classification)
  }

  predicate DueForOcr(rows: Rows) {
    rows.document.status == Clean && rows.workflow.Some? && rows.workflow.value.nextStep == Some(Ocr)
  }

  lemma ScanSucceeds(rows: Rows)
    requires Consistent(rows) && rows.document.status == Quarantined
    ensures var committed := CompleteScan(rows, ScanInput(rows.document.version, rows.workflow.value.version, false));
      committed.Ok? && Consistent(committed.value.rows) && DueForOcr(committed.value.rows)
      && committed.value.rows.document.deleteOriginalAfterProcessing == rows.document.deleteOriginalAfterProcessing
  {
  }

  lemma OcrSucceeds(rows: Rows, digest: string)
    requires Consistent(rows) && DueForOcr(rows)
    ensures var committed := CompleteOcr(rows, OcrInput(rows.workflow.value.version, digest));
      && committed.Ok? && Consistent(committed.value.rows)
      && committed.value.rows.derivative == Some(digest)
      && committed.value.rows.document == rows.document
      && committed.value.rows.workflow.Some?
      && committed.value.rows.workflow.value.nextStep
         == Some(if rows.document.deleteOriginalAfterProcessing then DeleteOriginal else Classification)
  {
  }

  /** From the verdict to its record. */
  method RecordVerdict(world: World, w: nat, others: seq<seq<Action>>) returns (thrown: bool)
    requires world.Valid() && (At(world.state, w).ScanInfected? || At(world.state, w).ScanTagged?)
    requires |others| == 2 && forall i :: 0 <= i < 2 ==> NotBy(w, others[i])
    modifies world
    ensures world.Valid() && At(world.state, w).Idle? && old(world.history) <= world.history
    ensures thrown ==> EndsInRecord(old(world.history), world.history, w)
    ensures others == [[], []] && At(old(world.state), w).ScanTagged? && ReadyToScan(old(world.state))
            && old(world.state).original == Stored(true)
            && ReadInput(old(world.state).rows) == Some(At(old(world.state), w).input) ==>
              && !thrown && ReadyForOcr(world.state)
              && world.state.rows.document.deleteOriginalAfterProcessing
                 == old(world.state).rows.document.deleteOriginalAfterProcessing
  {
    world.Interfere(w, others[0]);
    ghost var rows := world.state.rows;
    if Consistent(rows) && rows.document.status == Quarantined {
      ScanSucceeds(rows);
    }
    var committed := world.CompleteDocumentScan(w);
    thrown := false;
    if !committed {
      thrown := RecordAndThrow(world, w, "Error", others[1]);
    }
  }

  /** From the fetched original to the committed verdict. */
  method JudgeAndCommit(world: World, w: nat, infected: bool, others: seq<seq<Action>>) returns (thrown: bool)
    requires world.Valid() && At(world.state, w).ScanFetched?
    requires |others| == 3 && forall i :: 0 <= i < 3 ==> NotBy(w, others[i])
    modifies world
    ensures world.Valid() && At(world.state, w).Idle? && old(world.history) <= world.history
    ensures thrown ==> EndsInRecord(old(world.history), world.history, w)
    ensures others == [[], [], []] && !infected && ReadyToScan(old(world.state))
            && ReadInput(old(world.state).rows) == Some(At(old(world.state), w).input) ==>
              && !thrown && ReadyForOcr(world.state)
              && world.state.rows.document.deleteOriginalAfterProcessing
                 == old(world.state).rows.document.deleteOriginalAfterProcessing
  {
    world.Interfere(w, others[0]);
    var judged := world.Judge(w, infected);
    if !judged {
      thrown := RecordAndThrow(world, w, "NoSuchKey", others[1]);
      return;
    }
    thrown := RecordVerdict(world, w, others[1..]);
  }

  method ScanHandler(world: World, w: nat, infected: bool, others: seq<seq<Action>>) returns (thrown: bool)
    requires world.Valid() && At(world.state, w).Idle?
    requires |others| == 5 && forall i :: 0 <= i < 5 ==> NotBy(w, others[i])
    modifies world
    ensures world.Valid() && At(world.state, w).Idle? && old(world.history) <= world.history
    ensures thrown ==> EndsInRecord(old(world.history), world.history, w) || world.state.rows.workflow.None?
    ensures others == [[], [], [], [], []] && !infected && ReadyToScan(old(world.state)) ==>
              && !thrown && ReadyForOcr(world.state)
              && world.state.rows.document.deleteOriginalAfterProcessing
                 == old(world.state).rows.document.deleteOriginalAfterProcessing
  {
    world.Interfere(w, others[0]);
    var document := world.ReadForScan(w);
    if document.None? {
      return true;
    }
    var input := document.value;
    if input.status == Clean || input.status == Rejected || input.nextStep != Some(Scan) {
      return false;
    }
    if input.status != Quarantined {
      thrown := RecordAndThrow(world, w, "Error", others[1]);
      return;
    }
    world.Interfere(w, others[1]);
    var present := world.GetCiphertext(w);
    if !present {
      thrown := RecordAndThrow(world, w, "NoSuchKey", others[2]);
      return;
    }
    thrown := JudgeAndCommit(world, w, infected, others[2..]);
  }

  /** Deleting the object and recording it, from a worker that is due to. */
  method DeleteAndRecord(world: World, w: nat, deletedAt: int, others: seq<seq<Action>>) returns (thrown: bool)
    requires world.Valid() && At(world.state, w).DeletionDue?
    requires |others| == 3 && forall i :: 0 <= i < 3 ==> NotBy(w, others[i])
    modifies world
    ensures world.Valid() && At(world.state, w).Idle? && old(world.history) <= world.history
    ensures thrown ==> EndsInRecord(old(world.history), world.history, w)
    ensures others == [[], [], []] && ReadyForDeletion(old(world.state)) ==>
              && !thrown && AwaitsClassification(world.state) && world.state.original.Absent?
              && world.state.rows.document.originalDeletedAt == Some(deletedAt)
              && world.state.rows.derivative == old(world.state).rows.derivative
              && world.state.derivativeObject == old(world.state).derivativeObject
  {
    world.Interfere(w, others[0]);
    world.DeleteObject(w);
    world.Interfere(w, others[1]);
    var committed := world.CompleteDocumentOriginalDeletion(w, deletedAt);
    if !committed {
      thrown := RecordAndThrow(world, w, "Error", others[2]);
      return;
    }
    thrown := false;
  }

  /** From the stored derivative to its record; `due` says that a deletion must follow. */
  method RecordDerivative(world: World, w: nat, others: seq<seq<Action>>) returns (thrown: bool, due: bool)
    requires world.Valid() && At(world.state, w).DerivativePut?
    requires |others| == 2 && forall i :: 0 <= i < 2 ==> NotBy(w, others[i])
    modifies world
    ensures world.Valid() && old(world.history) <= world.history
    ensures thrown ==> EndsInRecord(old(world.history), world.history, w)
    ensures At(world.state, w) == if due then DeletionDue else Idle
    ensures others == [[], []] && ReadyForOcr(old(world.state))
            && ReadInput(old(world.state).rows) == Some(At(old(world.state), w).input)
            && old(world.state).derivativeObject == Some(At(old(world.state), w).digest) ==>
              && !thrown && due == old(world.state).rows.document.deleteOriginalAfterProcessing
              && (if due then ReadyForDeletion(world.state) else AwaitsClassification(world.state))
              && world.state.rows.derivative == world.state.derivativeObject == old(world.state).derivativeObject
              && world.state.original == Stored(true)
  {
    world.Interfere(w, others[0]);
    ghost var rows := world.state.rows;
    if Consistent(rows) && DueForOcr(rows) {
      OcrSucceeds(rows, At(world.state, w).digest);
    }
    var committed := world.CompleteDocumentOcr(w);
    due := false;
    if !committed {
      thrown := RecordAndThrow(world, w, "Error", others[1]);
      return;
    }
    thrown := false;
    due := At(world.state, w).DeletionDue?;
  }

  /** From the fetched original to the recorded derivative. */
  method StoreDerivative(world: World, w: nat, digest: string, others: seq<seq<Action>>)
    returns (thrown: bool, due: bool)
    requires world.Valid() && At(world.state, w).OcrFetched?
    requires |others| == 3 && forall i :: 0 <= i < 3 ==> NotBy(w, others[i])
    modifies world
    ensures world.Valid() && old(world.history) <= world.history
    ensures thrown ==> EndsInRecord(old(world.history), world.history, w)
    ensures At(world.state, w) == if due then DeletionDue else Idle
    ensures others == [[], [], []] && ReadyForOcr(old(world.state))
            && ReadInput(old(world.state).rows) == Some(At(old(world.state), w).input) ==>
              && !thrown && due == old(world.state).rows.document.deleteOriginalAfterProcessing
              && (if due then ReadyForDeletion(world.state) else AwaitsClassification(world.state))
              && world.state.rows.derivative == world.state.derivativeObject == Some(digest)
              && world.state.original == Stored(true)
  {
    world.Interfere(w, others[0]);
    world.PutDocumentDerivative(w, digest);
    thrown, due := RecordDerivative(world, w, others[1..]);
  }

  method OcrHandler(world: World, w: nat, digest: string, deletedAt: int, others: seq<seq<Action>>)
    returns (thrown: bool)
    requires world.Valid() && At(world.state, w).Idle?
    requires |others| == 8 && forall i :: 0 <= i < 8 ==> NotBy(w, others[i])
    modifies world
    ensures world.Valid() && At(world.state, w).Idle? && old(world.history) <= world.history
    ensures thrown ==> EndsInRecord(old(world.history), world.history, w) || world.state.rows.workflow.None?
    ensures others == seq(8, _ => []) && ReadyForOcr(old(world.state)) ==>
              && !thrown && AwaitsClassification(world.state)
              && world.state.rows.derivative == world.state.derivativeObject == Some(digest)
              && world.state.original == (if old(world.state).rows.document.deleteOriginalAfterProcessing
                                          then Absent else Stored(true))
  {
    world.Interfere(w, others[0]);
    var document := world.ReadForOcr(w);
    if document.None? {
      return true;
    }
    var input := document.value;
    if input.nextStep == Some(DeleteOriginal) {
      thrown := DeleteAndRecord(world, w, deletedAt, others[1..4]);
      return;
    }
    if input.nextStep != Some(Ocr) {
      return false;
    }
    if input.status != Clean {
      thrown := RecordAndThrow(world, w, "Error", others[1]);
      return;
    }
    world.Interfere(w, others[1]);
    var present := world.GetCiphertext(w);
    if !present {
      thrown := RecordAndThrow(world, w, "NoSuchKey", others[2]);
      return;
    }
    var due;
    thrown, due := StoreDerivative(world, w, digest, others[2..5]);
    if due {
      thrown := DeleteAndRecord(world, w, deletedAt, others[5..]);
    }
  }

  /**
   The `document-process` job: scan, then recognise. Whatever interferes, the world it
   leaves behind is one of those the deletion-safety theorem speaks about; undisturbed, a
   clean upload reaches classification with the original kept or removed as asked.
   */
  method DocumentProcessJob(deleteOriginal: bool, before: seq<Action>, w: nat, infected: bool, digest: string,
                            deletedAt: int, scanOthers: seq<seq<Action>>, ocrOthers: seq<seq<Action>>)
    returns (final: System, thrown: bool)
    requires At(Execute(Initial(deleteOriginal), before), w).Idle?
    requires |scanOthers| == 5 && forall i :: 0 <= i < 5 ==> NotBy(w, scanOthers[i])
    requires |ocrOthers| == 8 && forall i :: 0 <= i < 8 ==> NotBy(w, ocrOthers[i])
    ensures final.rows.document.status != Pending && final.original.Absent? ==> ReplacementDurable(final)
    ensures var s := Execute(Initial(deleteOriginal), before);
      scanOthers == [[], [], [], [], []] && ocrOthers == seq(8, _ => []) && !infected
      && s.rows.document.status == Quarantined ==>
        && !thrown && AwaitsClassification(final)
        && final.rows.derivative == final.derivativeObject == Some(digest)
        && final.original == (if s.rows.document.deleteOriginalAfterProcessing then Absent else Stored(true))
  {
    RunsKeepInvariant(deleteOriginal, before);
    var world := new World(Execute(Initial(deleteOriginal), before));
    thrown := ScanHandler(world, w, infected, scanOthers);
    if !thrown {
      thrown := OcrHandler(world, w, digest, deletedAt, ocrOthers);
    }
    final := world.state;
    ExecuteAppends(Initial(deleteOriginal), before, world.history);
    OriginalsAreDeletedSafely(deleteOriginal, before + world.history);
  }
}

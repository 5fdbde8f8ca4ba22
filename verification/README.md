# LegacyVault: a verified model

LegacyVault keeps a household's estate records. Its core is a set of protocols over shared
rows and stored objects that must survive crashes, retries and races, and a few byte-level
formats whose stability the digests, signatures and checks rest on. This project models
both in Dafny and proves what they promise.

`dafny verify dfyconfig.toml` checks everything.

## How it is built

Each protocol is modelled twice. The repository's transactions are functions of the
committed rows, and a class runs the source's statements one after the other and is shown
to leave exactly what the function computes, or the old rows after a rollback. On top of
the functions stands a step relation: one step is one committed transaction, one statement
under locks, or one object-store call, by any of any number of workers, which keep stale
snapshots and may fail or vanish after any step. `Execute(start, steps)` folds the steps, so
a theorem about it for all `steps` holds of every interleaving.

| files | content |
|---|---|
| `document_tables`, `document_protocol`, `document_worker` | scan, OCR and deletion of originals: rows, interleavings, handlers |
| `workflow_runner` | the generic persisted workflow |
| `privacy_deletion`, `privacy_access`, `privacy_locks`, `privacy_races`, `privacy_progress` | confirm, cancel and complete: rows, then statements under row locks beside other changes of access |
| `idempotency`, `billing`, `household` | one mutation per key, convergence of webhooks, membership counts |
| `audit`, `audit_store`, `household_keys` | hash chain and double-checked creation under advisory locks |
| `json*`, `numerals`, `hex`, `utf8`, `base64`, `prompt_canonical` | the canonical printer, a parser, and the encodings |
| `envelope`, `export_entries`, `portable_export*` | encryption contexts and the portable export |
| `annual_review`, `authorization`, `emergency_access` | contradiction grouping, the access policy, emergency access |
| `luhn`, `provider`, `clamav_framing` | card checksum, circuit breaker, scanner stream |

## What the code does not promise

Where a natural claim is false of the code, there is a run or an input that shows it and a
statement of exactly when it holds.

- A client that uses its upload URL again after the scan leaves a clean row over an untagged
  object; `AgreementEndsExactly` lists the three kinds of steps that can end the agreement,
  each with a run.
- Overlapping OCR attempts share one object key, so the recorded digest can be stale;
  `DigestAgreementEndsExactly` lists the two kinds of steps that make it so, each with a
  run. Deletion safety does not depend on it.
- A legal hold committed after the completion has read the holds is not seen;
  `RemovalRespectsHoldsExactly` says when that matters.
- A support approval inserted after the completion's update stays unrevoked
  (`CommitEndsExactlyWhatItSaw`). It opens nothing: the membership is inactive for good.
- A replay is tied to its key and hash, not to its route; `AnswersAreOwnExactlyForOneRoute`
  says when it is tied to the route too.
- Webhooks with equal provider times can leave a row that depends on their order;
  `DeliveriesConvergeExactly` says when it does not.
- `localeCompare` calls some different keys equal, and then the canonical text depends on
  key order; `OneTextExactlyWhenKeysApart` is exact for every value.
- A stored audit log verifies only if its timestamps were in the database's form when they
  were hashed; `EveryRunVerifiesExactly` is exact, and the repository's own callers meet it.
- The text of the last audit hash is compared as bytes, so it alone can be spelled in other
  ways; `OnlyTheLastHashCanBeRespelled` says in which.
- The domain would release a delayed emergency request that has no release time; the
  statement never does. No code in the repository inserts a permission grant, so a released
  category becomes readable only where grants come from elsewhere.
- A manual fact may be confirmed without evidence, and then no report can be generated.

## Model

| member | source | states |
|---|---|---|
| `DocumentProtocol.OriginalsAreDeletedSafely` | apps/worker/src/index.ts:675-808 | after the upload completed, in every interleaving of any number of crashing, overlapping workers: a missing original implies the delete flag, status clean, the `ocr` step committed, the derivative row and the stored derivative |
| `DocumentProtocol.RowsDescribeObjects` | apps/worker/src/index.ts:571-808 | in every reachable state the rows satisfy the joint invariant and a derivative row has its object; and, unless a client stored the original again after completing its upload, a recorded deletion has happened and a clean row means a clean tag or no object |
| `DocumentProtocol.AgreementEndsExactly` | apps/worker/src/index.ts:571-808 | exactly which steps end that agreement: a renewed client upload onto a clean document, or a scan or deletion commit that follows such an upload |
| `DocumentProtocol.RejectionIsFinal` | packages/database/src/repository.ts:1961-2212 | once rejected for malware, always: whatever happens later, the document is never recognised or extracted from, no deletion is recorded and its original is still stored |
| `DocumentProtocol.VerdictCommitsExactlyOnLoadedRows` | packages/database/src/repository.ts:1961-1997 | in every run a verdict commits if and only if document and workflow are the very rows its worker loaded; if anything touched either since, it conflicts and changes no row |
| `DocumentProtocol.DerivativeCommitsExactlyOnLoadedRun` | packages/database/src/repository.ts:2020-2065 | in every run a derivative is recorded if and only if the workflow is the very row its worker loaded |
| `DocumentProtocol.WorkersFailExactly` | apps/worker/src/index.ts:571-808 | in consistent rows a worker comes to fail exactly by a missing object, a refused commit or a throwing call, and has then changed nothing |
| `DocumentProtocol.UploadAnswerStays` | packages/database/src/repository.ts:1826-1911 | whatever happens after an upload was accepted, its key answers the same request alike and any other request with a conflict |
| `DocumentProtocol.ExtractionAnswerStays` | packages/database/src/repository.ts:2091-2212 | the same for an extraction, so its candidates are inserted once |
| `DocumentProtocol.LateUploadBreaksTheTag` | packages/database/src/repository.ts:1659-1784 | a run in which a second use of the upload URL leaves a clean row over an untagged object |
| `DocumentProtocol.UploadBeforeVerdictBreaksTheTag` | packages/database/src/repository.ts:1659-1784 | a run in which the upload comes between tag and verdict, and the verdict commits over an untagged object |
| `DocumentProtocol.UploadBeforeRecordRestoresTheObject` | apps/worker/src/index.ts:782-789 | a run in which the upload comes between deletion and record, so the row says deleted and the object is there |
| `DocumentProtocol.FlagsTellWhatHappened` | apps/worker/src/index.ts:571-808 | the conditions of the two conditional claims fail of a run exactly when a client stores the original again after completing its upload, or an OCR attempt begins beside another |
| `DocumentProtocol.DerivativeDigestAgrees` | apps/worker/src/index.ts:762-781 | without overlapping OCR attempts the recorded digest is the digest of the stored derivative |
| `DocumentProtocol.OverlapBreaksTheDigest` | apps/worker/src/index.ts:762-781 | a run of two overlapping attempts whose row and object disagree |
| `DocumentProtocol.RecordingBreaksTheDigest` | apps/worker/src/index.ts:762-781 | a run in which both attempts store before either records, and the first records what the second overwrote |
| `DocumentProtocol.DigestAgreementEndsExactly` | apps/worker/src/index.ts:571-808 | over all actions, the recorded and the stored digest stop agreeing exactly by a put over another recorded digest, or by recording a first digest whose object has been overwritten since |
| `DocumentProtocol.StepKeepsInvariant` | apps/worker/src/index.ts:571-808 | every committed transaction, object-store call, failure record and crash keeps the protocol's invariant, stale snapshots included |
| `DocumentTables.UploadKeepsRows` | packages/database/src/repository.ts:1826-1911 | completing an upload keeps the joint row invariant and only advances the rows |
| `DocumentTables.ScanKeepsRows` | packages/database/src/repository.ts:1961-1997 | a scan verdict keeps the joint row invariant and only advances the rows |
| `DocumentTables.FailureKeepsPosition` | packages/database/src/repository.ts:1999-2018 | a recorded failure never moves the workflow's position, its steps or the document's status |
| `DocumentTables.OcrKeepsRows` | packages/database/src/repository.ts:2020-2065 | recording a derivative keeps the joint row invariant and only advances the rows |
| `DocumentTables.DeletionKeepsRows` | packages/database/src/repository.ts:2067-2089 | recording a deletion keeps the joint row invariant and only advances the rows |
| `DocumentTables.ExtractionKeepsRows` | packages/database/src/repository.ts:2091-2212 | an extraction adds all facts with all their evidence, once, and ends the workflow |
| `DocumentTables.ScanIsAcceptedExactly` | packages/database/src/repository.ts:1961-1997 | in consistent rows a verdict is accepted exactly for a quarantined document at both expected versions, and ends the workflow or makes recognition due |
| `DocumentTables.ConsistentStepsAreDistinct` | packages/database/src/repository.ts:1826-2212 | the legal step sequences hold no step twice |
| `DocumentTables.DocumentRepository.CompleteDocumentUpload` | packages/database/src/repository.ts:1826-1911 | the statements leave exactly the rows of the transaction function, replays included; under a new key any other version or status is a conflict that changes nothing |
| `DocumentTables.DocumentRepository.CompleteDocumentScan` | packages/database/src/repository.ts:1961-1997 | both guarded updates commit together or not at all; either stale version is a conflict that changes nothing |
| `DocumentTables.DocumentRepository.RecordDocumentScanFailure` | packages/database/src/repository.ts:1999-2018 | a failure is noted with at most 120 characters and moves nothing: no step, verdict, deletion mark, derivative, fact or stored answer; a completed run stays as it is, and the joint invariant holds on |
| `DocumentTables.DocumentRepository.CompleteDocumentOcr` | packages/database/src/repository.ts:2020-2065 | insert-or-compare of the derivative and the guarded step, with rollback; a stale version or another digest is a conflict that changes nothing |
| `DocumentTables.DocumentRepository.CompleteDocumentOriginalDeletion` | packages/database/src/repository.ts:2067-2089 | the deletion mark and the guarded step, idempotent once the step is recorded |
| `DocumentTables.DocumentRepository.InsertCandidates` | packages/database/src/repository.ts:2154-2188 | the insert loop succeeds exactly when no evidence or fact id repeats, and then appends all of both |
| `DocumentTables.DocumentRepository.CompleteManualDocumentExtraction` | packages/database/src/repository.ts:2091-2212 | reservation, guarded workflow, inserts and stored answer in one transaction, replay by key; under a new key a stale version is a conflict that changes nothing |
| `DocumentWorker.ScanHandler` | apps/worker/src/index.ts:571-673 | with anything interfering between any two calls the handler is a run of the step relation and ends idle; undisturbed, a clean quarantined document is scanned, tagged and due for OCR |
| `DocumentWorker.JudgeAndCommit` | packages/documents/src/index.ts:124-150 | scanner, tag and verdict in the source's order under any interference; whatever it throws was recorded as a failure first; undisturbed, the document is due for OCR |
| `DocumentWorker.RecordVerdict` | packages/database/src/repository.ts:1961-1997 | from tag to committed verdict, a conflict being recorded and thrown |
| `DocumentWorker.RecordDerivative` | packages/database/src/repository.ts:2020-2065 | from stored to recorded derivative; undisturbed it says whether the deletion is due and row and object agree |
| `DocumentWorker.StoreDerivative` | apps/worker/src/index.ts:724-781 | put before commit; undisturbed, the recorded digest is that of the stored object |
| `DocumentWorker.DeleteAndRecord` | apps/worker/src/index.ts:782-789 | delete before commit; undisturbed, the original is gone and recorded so |
| `DocumentWorker.OcrHandler` | apps/worker/src/index.ts:675-808 | the same for recognition and deletion; undisturbed, the document awaits classification |
| `DocumentWorker.DocumentProcessJob` | apps/worker/src/index.ts:1065-1068 | a job started in any reachable state leaves only worlds the deletion-safety theorem covers; undisturbed it takes a quarantined upload to classification |
| `DocumentWorker.OcrSucceeds` | packages/database/src/repository.ts:2020-2065 | a due derivative is always accepted, and leads to deletion of the original exactly when that was asked for |
| `DocumentWorker.OthersKeepWorker` | apps/worker/src/index.ts:571-808 | what other workers and clients do never moves this worker |
| `WorkflowRunner.RowAndDomainAgreeOnFreshSteps` | packages/domain/src/workflows.ts:95-118 | the row update and the domain function agree if and only if the step is new and its successor is not the empty text |
| `WorkflowRunner.CompleteStepAdvances` | packages/database/src/repository.ts:2318-2350 | from a position of the definition, completing the due step reaches exactly the next position |
| `WorkflowRunner.WorkflowStore.CompleteStepAt` | packages/database/src/repository.ts:2318-2350 | accepted exactly at the expected version of a run that is not completed; a step is recorded at most once and for good, and the due step of a definition leads from one legal position to the next |
| `WorkflowRunner.WorkflowStore.RecordWorkflowFailure` | packages/database/src/repository.ts:2352-2363 | a failure never moves the position in a definition, and never reopens a completed run |
| `WorkflowRunner.Handle` | apps/worker/src/index.ts:832-864 | one undisturbed delivery executes exactly the unrecorded steps up to the first that throws, records each, and completes the run if none throws |
| `WorkflowRunner.StepsAreRecordedInOrderExactlyOnce` | apps/worker/src/index.ts:832-864 | over all runs of concurrent, retrying, crashing handlers: the recorded steps are a prefix, each recorded once after being executed, a step executes only after all before it are recorded, version = 1 + completions + failures, and the conflict of stored position and definition never occurs |
| `WorkflowRunner.RecordsExactlyOnItsSnapshot` | apps/worker/src/index.ts:832-864 | in every run a step is recorded exactly when the row is the one its handler goes by; otherwise the handler conflicts and changes no row |
| `WorkflowRunner.HandlerLeftAloneCompletes` | apps/worker/src/index.ts:832-864 | after any run at all, a handler that starts anew and is left alone records every step and completes the run |
| `PrivacyDeletion.RemovalEndsAccess` | packages/database/src/repository.ts:3038-3070 | after a removal no membership is active, and the grants and approvals of those that were are revoked; the others are untouched |
| `PrivacyDeletion.SerialKeepsLockstep` | packages/database/src/repository.ts:2716-3118 | each transaction moves request, execution and workflow from one joint position to another |
| `PrivacyDeletion.ConfirmsExactlyWhen` | packages/database/src/repository.ts:2716-2854 | in lockstep a confirmation is accepted exactly before any other, at the expected version, for a positive number of days, which the recovery then lasts |
| `PrivacyDeletion.PrivacyRepository.ConfirmPrivacyDeletion` | packages/database/src/repository.ts:2716-2854 | the three statements commit together or leave the rows as they were |
| `PrivacyDeletion.CancelsExactlyWhen` | packages/database/src/repository.ts:2892-2978 | in lockstep a cancellation is accepted exactly during the recovery period at the expected version, and leaves all access |
| `PrivacyDeletion.CompletesExactlyWhen` | packages/database/src/repository.ts:2980-3118 | in lockstep a completion is accepted exactly once recovery is over, at the execution's expected version; under a hold it records the held categories and leaves all access, otherwise it removes the person and records when |
| `PrivacyDeletion.ActiveCategoriesAreThose` | packages/database/src/repository.ts:3013-3017 | the recorded categories are those of the holds that have begun, not ended and not been released, each once |
| `PrivacyDeletion.PrivacyRepository.CancelPrivacyDeletion` | packages/database/src/repository.ts:2892-2978 | three guarded updates commit together or not at all; a stale version changes nothing, and no cancellation touches access |
| `PrivacyDeletion.PrivacyRepository.CompletePrivacyDeletionActiveSystem` | packages/database/src/repository.ts:2980-3118 | the same for the worker's completion, with its time gate, legal-hold branch and removal |
| `PrivacyAccess.RemovalEndsExactlyWhatItSaw` | packages/database/src/repository.ts:3038-3070 | after the five statements every membership active at the read is inactive, others are untouched, and a grant or approval of theirs is good exactly when it was and its update could not see it |
| `PrivacyAccess.RemovalIsAtomicExactly` | packages/database/src/repository.ts:3038-3070 | the five statements do what one atomic removal would if and only if no grant or approval was committed after its update |
| `PrivacyAccess.ChangesLeaveThePerson` | packages/auth/src/access.ts:73-170 | role changes, joining, granting, approving and revoking never end a membership of the person, remove a row or undo a revocation, and wait for locked rows |
| `PrivacyAccess.ChangesTakeEffectExactly` | packages/auth/src/access.ts:73-170 | only an active member other than the owner changes role, only an active agent is approved, only a checked approval is inserted and only a good one revoked, none of it while the row is locked |
| `PrivacyLocks.CommitIsSerialExactly` | packages/database/src/repository.ts:2716-3118 | a transaction that reaches its end statement by statement commits exactly what it would have alone, if and only if no grant or approval came late for its removal |
| `PrivacyLocks.StepKeepsInvariant` | packages/database/src/repository.ts:2716-3118 | every statement, commit, abort, change of holds and change of access by others keeps the lock discipline, the lockstep and what a removal ended |
| `PrivacyLocks.RowsMoveInLockstep` | packages/database/src/repository.ts:2716-3118 | the three rows are in lockstep in every committed state of every statement interleaving with row locks and aborts |
| `PrivacyLocks.CommitsAtTheExpectedVersion` | packages/database/src/repository.ts:2716-3118 | over all runs a transaction that gets to its commit does so at the version and status it expected, a completion not before the end of recovery |
| `PrivacyLocks.PersonIsRemovedOnlyWhenDue` | packages/database/src/repository.ts:2980-3118 | in every run the person's active memberships stay until a completion at or after the end of recovery that saw no active hold; from then on, for good, none is active, the grants and approvals its updates saw are revoked, and any other good approval was checked before it committed |
| `PrivacyLocks.OnlyRemovalEndsAccess` | packages/database/src/repository.ts:3038-3070 | no other step of any transaction takes the person, a membership, a grant or an approval away, except the revocation of that one approval |
| `PrivacyLocks.CommitEndsExactlyWhatItSaw` | packages/database/src/repository.ts:3038-3070 | over all runs: what was active at the `for update` read ends inactive, and a grant or approval is left unrevoked exactly when it was good and not yet committed when its update ran |
| `PrivacyLocks.RecoveryPeriodIsKept` | packages/database/src/repository.ts:2716-2854 | the recovery period is exactly the configured number of days |
| `PrivacyProgress.TransactionLeftAloneIsSerial` | packages/database/src/repository.ts:2716-3118 | after any run, once no privacy transaction is open, one that begins and is left alone ends with exactly what the function computes, or with the rows as they were where the function refuses |
| `PrivacyRaces.LateHoldIsNotSeen` | packages/database/src/repository.ts:3013-3017 | for any active hold, a run in which it is committed after the read and does not stop the removal |
| `PrivacyRaces.RemovalRespectsHoldsExactly` | packages/database/src/repository.ts:3013-3070 | over every run in which a completion reads the holds and goes on to remove the person: none is active at its commit if and only if the last change of the holds after the read, if any, left none active |
| `PrivacyRaces.LateApprovalStaysUnrevoked` | packages/auth/src/access.ts:73-118 | a run in which an approval checked in time and inserted after the update stays unrevoked under a removed person |
| `PrivacyRaces.OppositeOrdersCanDeadlock` | packages/database/src/repository.ts:2892-3000 | cancel and completion can block each other, and aborting either frees the other |
| `Idempotency.RowDecisionsAreDomainDecisions` | packages/domain/src/facts.ts:39-69 | the guarded updates accept only what the domain allows; confirming exactly that, rejecting strictly less |
| `Idempotency.DecisionMovesExactly` | packages/database/src/repository.ts:1026-1085 | a decision succeeds exactly at the expected version on the moves candidate or disputed to confirmed (manual or with evidence), candidate to rejected and confirmed to disputed |
| `Idempotency.RejectedIsFinal` | packages/database/src/repository.ts:1026-1085 | over all runs of decisions a rejected fact is never decided again |
| `Idempotency.EveryStatusHasItsDecision` | packages/database/src/repository.ts:1026-1085 | over all runs a fact that moved was disputed from confirmed alone, rejected from candidate alone, or confirmed from one of the other two with evidence or manual, by a decision at its version then |
| `Idempotency.Vault.ReserveIdempotency` | packages/database/src/repository.ts:3348-3380 | fresh exactly for a new key, an error exactly for another hash, a replay exactly of the stored response; no existing record changes |
| `Idempotency.Vault.CompleteIdempotency` | packages/database/src/repository.ts:3382-3400 | the first response stays whatever a later completion brings, and no other record changes, comes or goes |
| `Idempotency.Vault.DecideFact` | packages/database/src/repository.ts:1026-1085 | a decision succeeds exactly on those moves at the expected version, sets its status one version on and keeps the evidence; every other fact is untouched |
| `Idempotency.Vault.PostDecision` | apps/api/src/routes/vault.ts:797-823 | a known key changes nothing and is answered from the ledger; a fresh one decides at most once, and stores the answer or reports a conflict |
| `Idempotency.OneMutationPerKey` | apps/api/src/routes/vault.ts:797-823 | over concurrent requests and crashes between the three transactions at most one mutation commits per key, and every successful answer for the key is its answer, to the same hash |
| `Idempotency.LedgerOnlyExtends` | packages/database/src/repository.ts:3348-3400 | a stored hash and first response never change |
| `Idempotency.ReplayMayAnswerAnotherRoute` | apps/api/src/routes/vault.ts:797-823 | for any two routes sharing key and hash, a run in which the second is answered with the first one's response |
| `Idempotency.AnswerIsOwnExactlyWhenReserved` | apps/api/src/routes/vault.ts:797-823 | over all runs, a successful answer comes from its own route's mutation if and only if the key was reserved over that route |
| `Idempotency.AnswersAreOwnExactlyForOneRoute` | apps/api/src/routes/vault.ts:797-823 | answers for a key and hash never cross routes, in any run, if and only if one route alone can send them |
| `Billing.BillingTables.ProcessBillingEvent` | packages/database/src/repository.ts:2365-2415 | the statements do to the tables what `Process` does to the books |
| `Billing.BillingTables.ProcessRefundEvent` | packages/database/src/repository.ts:2479-2525 | the same, per refund id |
| `Billing.RowShowsLatestEvent` | packages/database/src/repository.ts:2365-2525 | for any order and repetition a row shows the distinct event with the greatest provider time, ties to the later first delivery, and its version counts the applied outcomes |
| `Billing.AnswersAreExact` | packages/database/src/repository.ts:2365-2525 | a delivery is answered duplicate exactly if its id was delivered before, otherwise stale exactly if a newer event of its target was |
| `Billing.DeliveriesConvergeExactly` | packages/database/src/repository.ts:2365-2525 | all deliveries of the same events, in any order and with any repetition, leave the same data if and only if the target's events with the greatest provider time carry the same data |
| `Billing.EqualTimesDependOnOrder` | packages/database/src/repository.ts:2392-2407 | two disagreeing events at one time leave the data of the one delivered last |
| `Household.HouseholdRepository.CreateHouseholdForAccount` | packages/database/src/repository.ts:392-437 | a household starts in the sound state of no operations, with its creator as the one active owner and nobody invited |
| `Household.HouseholdRepository.CreateMembershipInvitation` | packages/database/src/repository.ts:509-626 | an invitation is made exactly for an assignable role, at the household's version, under a fresh id and token and beside no open one for the address, and is as asked; a violated unique key undoes the version bump |
| `Household.HouseholdRepository.RevokeMembershipInvitation` | packages/database/src/repository.ts:676-754 | only an open invitation is revoked, no acceptance succeeds with it afterwards, and no membership or other invitation changes |
| `Household.HouseholdRepository.UpdateMembershipRole` | packages/database/src/repository.ts:756-835 | a change of role never makes or unmakes the owner, lets nobody in or out and touches one membership |
| `Household.HouseholdRepository.AcceptMembershipInvitation` | packages/database/src/repository.ts:837-993 | commits exactly when the token's invitation is addressed to the caller, unused, unexpired and at the expected version and neither id nor account is in use; the new active member is the caller with the invitation's role |
| `Household.InviteIsSound` | packages/database/src/repository.ts:509-626 | an invitation keeps owner, counts, unique tokens and one open invitation per address |
| `Household.RevokeIsSound` | packages/database/src/repository.ts:676-754 | a revocation keeps them too, and no invitation is both accepted and revoked |
| `Household.ChangeRoleIsSound` | packages/database/src/repository.ts:756-835 | a change of role keeps them too |
| `Household.AcceptIsSound` | packages/database/src/repository.ts:837-993 | an acceptance adds one membership and one accepted invitation, never an owner |
| `Household.EveryRunIsSound` | packages/database/src/repository.ts:336-993 | over all runs: one owner, memberships = 1 + accepted invitations, none both accepted and revoked, household version = 1 + committed operations |
| `Household.RolesComeFromInvitationsAndChanges` | packages/database/src/repository.ts:509-993 | over all runs each member but the owner has the role of the invitation they accepted or of the last committed change of their role, and each invitation is as it was asked for |
| `JsonRoundTrip.ParseUndoesPrint` | packages/reports/src/index.ts:90-102 | parsing the canonical text (RFC 8259 sections 2 to 7) gives the value back with the keys of every object sorted |
| `JsonRoundTrip.SortIsNatural` | packages/reports/src/index.ts:93-100 | sorting printed members or printing sorted members is the same |
| `JsonOrder.PrintIsInjective` | packages/reports/src/index.ts:90-102 | different values beyond key order have different texts, whatever the collation |
| `JsonOrder.PrintIdentifiesValues` | packages/reports/src/index.ts:90-102 | where the collation tells keys apart, equal texts if and only if equal values up to key order |
| `JsonOrder.PrintIsStableUnderParse` | packages/reports/src/index.ts:90-102 | printing, parsing and printing again gives the same text |
| `JsonIndependence.SortIsStable` | packages/reports/src/index.ts:93-95 | sorting leaves members whose keys `localeCompare` calls equal in the order they were given |
| `JsonIndependence.OneTextExactlyWhenKeysApart` | packages/reports/src/index.ts:90-102 | for every value: its text is the same whatever the order of its keys at every depth if and only if the collation tells the keys of each of its objects apart |
| `JsonGrammar.ParsesExactlyTheGrammar` | packages/reports/src/index.ts:194-202 | a text parses to a value if and only if the grammar of RFC 8259, sections 2 to 7, derives it, with whitespace, escapes and the last of repeated keys |
| `JsonFields.ParsedIsWellFormed` | packages/reports/src/index.ts:194-202 | whatever parses can be printed again: numerals are legal and keys distinct |
| `JsonFields.FieldOfSorted` | packages/reports/src/index.ts:204-273 | a member read from a parsed value is the printed value's member, sorted |
| `PromptCanonical.StableTextIdentifiesValues` | packages/ai-gateway/src/canonical.ts:1-15 | equal prompt prefixes come from values equal up to key order and string normal form, whatever the collation, with array-index keys listed first as JavaScript does; the converse where it tells keys apart |
| `PromptCanonical.StableTextIsCanonicalExactly` | packages/ai-gateway/src/canonical.ts:1-15 | the prefix is the text the reports print if and only if the collation already puts every object's array indices first and ascending |
| `PromptCanonical.ArrayIndicesAreDecimals` | packages/ai-gateway/src/canonical.ts:1-15 | the keys an object lists first are exactly the decimal texts of the numbers below 2^32 - 1 |
| `Audit.VerifyAuditChain` | packages/audit/src/index.ts:65-81 | the loop computes the recursive check, thrown errors included |
| `Audit.VerifyAcceptsExactlyChains` | packages/audit/src/index.ts:65-81 | it accepts exactly the chains: numbered from 1, linked, allowed and with their own digests |
| `Audit.FinalHashDeterminesChain` | packages/audit/src/index.ts:38-81 | with an injective HMAC two verifying chains of one length whose final hashes read as the same bytes have the same contents event by event, and the same hash texts but for the last |
| `Audit.OnlyTheLastHashCanBeRespelled` | packages/audit/src/index.ts:65-81 | a hash text of a verifying chain can be replaced if and only if it is the last one, by a text with the same hexadecimal pairs up to case |
| `Audit.ChainGrows` | packages/audit/src/index.ts:57-64 | an event created on top of a chain extends it |
| `Audit.CreatesExactlyWhen` | packages/audit/src/index.ts:38-64 | an event is created exactly for a safe positive number and metadata without forbidden keys or texts over 120 characters, with its HMAC in lower-case hexadecimal |
| `Audit.VerificationThrowsExactly` | packages/audit/src/index.ts:65-81 | verification throws instead of answering exactly when it comes to forbidden metadata behind a good prefix |
| `Audit.PagesReadTheWholeChain` | packages/audit/src/store.ts:150-212 | following the pages of a verified log reads every later event once and in order |
| `AuditStore.PostgresAuditStore.Append` | packages/audit/src/store.ts:38-104 | an append adds exactly the event created from the last row, or nothing |
| `AuditStore.CommittedLogIsChain` | packages/audit/src/store.ts:38-104 | over all interleavings of appenders with rollbacks the log is numbered 1 to n and verifies |
| `AuditStore.CommittedEventsWereRequested` | packages/audit/src/store.ts:38-104 | over all interleavings every committed event belongs to the household and says what somebody asked to record |
| `AuditStore.AppenderLeftAloneAppends` | packages/audit/src/store.ts:38-104 | after any run in which nobody is between taking and giving back the lock, a process left alone adds exactly its event on top, unless it is refused, and leaves the lock free |
| `AuditStore.StoredLogVerifiesExactly` | packages/audit/src/store.ts:106-144 | read back from the rows it verifies if and only if every committed timestamp was already in the form the database gives back |
| `AuditStore.EveryRunVerifiesExactly` | packages/audit/src/store.ts:38-144 | every run over some requests leaves a log that verifies when read back if and only if the timestamp of each request that is not refused is already in the database's form |
| `AuditStore.PrintedInstantsVerify` | apps/api/src/runtime.ts:514-529 | so it always does for callers that send `new Date().toISOString()` |
| `AuditStore.TimestampWithoutMillisecondsFails` | packages/audit/src/store.ts:106-144 | one event stamped without milliseconds makes the stored log fail |
| `Hex.DecodeUndoesEncode` | packages/audit/src/index.ts:53-75 | hexadecimal digests read back |
| `Hex.EncodingSpellsTheBytes` | packages/audit/src/index.ts:53-56 | a hexadecimal digest spells the number of its bytes, most significant first, in two digits a byte |
| `Hex.DecodesAlikeExactly` | packages/audit/src/index.ts:74-77 | two texts read as the same bytes if and only if their leading hexadecimal pairs agree up to case |
| `Envelope.AssociatedDataIsInjective` | packages/crypto/src/index.ts:37-53 | the colon-joined text determines the context when the three ids hold no colon, although purposes do |
| `Envelope.ColonsInIdsCollide` | packages/crypto/src/index.ts:37-53 | with a colon in a record id two contexts collide |
| `Envelope.OpensOnlyInItsContext` | packages/crypto/src/index.ts:54-103 | an envelope opens if and only if key and context are those it was sealed with, and to what was sealed |
| `Envelope.OpensExactlyWhen` | packages/crypto/src/index.ts:72-103 | any envelope, whoever made it, opens exactly under its own 32-byte key, as A256GCM at the context's version and over the context's own text |
| `Envelope.UnwrapUndoesWrap` | packages/crypto/src/index.ts:104-139 | a wrapped household key unwraps for its household and no other |
| `HouseholdKeys.OneActiveKeyForAll` | packages/crypto/src/store.ts:56-129 | over all interleavings and rollbacks: never two active keys, the same key for every caller that succeeds, and no insert ever meets the unique index |
| `HouseholdKeys.CallerLeftAloneSucceeds` | packages/crypto/src/store.ts:56-129 | from any reachable state a caller left alone with the lock free gets the key, old or new |
| `HouseholdKeys.StepKeepsInvariant` | packages/crypto/src/store.ts:56-129 | every statement, commit and rollback keeps the lock discipline and the single key |
| `HouseholdKeys.HouseholdKeyStore.GetOrCreateActiveKey` | packages/crypto/src/store.ts:56-129 | the double-checked statements, with another caller's commit between the reads |
| `ExportEntries.SafePathsStayInsideAndApart` | packages/reports/src/index.ts:118-130 | an accepted path leads below the directory it is unpacked in, and two accepted paths never to the same place |
| `ExportEntries.PathIsSafeExactlyWhen` | packages/reports/src/index.ts:118-127 | segments make an accepted path exactly when none is empty, `.` or `..` or holds a backslash |
| `Base64.DecodeUndoesEncode` | packages/reports/src/index.ts:158-158 | base64 reads back (section 4 of RFC 4648), padding included |
| `Base64.EncodeUndoesDecode` | packages/reports/src/index.ts:158-158 | every padded text of the standard alphabet with no stray bits is the encoding of what it decodes to |
| `Utf8.DecodeUndoesEncode` | packages/reports/src/index.ts:170-191 | UTF-8 reads back (section 3 of RFC 3629) |
| `Utf8.OnlyEncodingsAreRead` | packages/reports/src/index.ts:195-203 | what is read from several bytes is the encoding of its character, so no overlong form and no surrogate is |
| `PortableExport.CheckInputEntries` | packages/reports/src/index.ts:146-160 | the mapping callback with its growing set of paths gives the checked entries or the first error |
| `PortableExport.CreatePortableExport` | packages/reports/src/index.ts:132-192 | the bytes are the canonical text of the container `Export` describes, or its first error |
| `PortableExport.CheckPayloadItems` | packages/reports/src/index.ts:259-272 | the loop with its growing set of seen paths finds the first bad entry |
| `PortableExport.VerifyAndOpenPortableExport` | packages/reports/src/index.ts:204-274 | the checks in order give what `Open` describes |
| `PortableExportRoundTrip.ExportSucceedsExactlyWhen` | packages/reports/src/index.ts:132-192 | exporting succeeds if and only if identity, time, entries, key length, key version and signing key are acceptable |
| `PortableExportRoundTrip.EntriesAreAccepted` | packages/reports/src/index.ts:146-161 | the entries pass if and only if each is safe and no path repeats |
| `PortableExportRoundTrip.SortedByPathSorts` | packages/reports/src/index.ts:161-161 | sorting loses and adds nothing and ascends by path |
| `PortableExportRoundTrip.OpeningReturnsTheEntries` | packages/reports/src/index.ts:132-274 | an export opens under its signer if and only if with its key, and then holds exactly the input entries sorted by path with identical bytes |
| `PortableExportRoundTrip.OnlyTheExportOpens` | packages/reports/src/index.ts:204-274 | any bytes at all that open with an unforged signature of the export open to its entries, and with its key |
| `PortableExportChecks.OpensExactlyWhen` | packages/reports/src/index.ts:194-274 | any bytes open exactly if they parse to a container whose metadata, digest and signature hold and whose payload under the key is a manifest of the same archive and time with good entries at different paths; what opens is that payload |
| `PortableExportChecks.NothingUnsignedIsDecrypted` | packages/reports/src/index.ts:204-245 | without a valid signature every key gets the same answer, an error |
| `PortableExportChecks.PayloadIsInTheBox` | packages/reports/src/index.ts:232-245 | the payload is what the box was sealed over under its key and for the manifest's archive and version |
| `PortableExportRoundTrip.AssumptionsCanBeMet` | packages/reports/src/index.ts:132-274 | the assumptions of the two theorems hold of a concrete scheme and of its own exports |
| `AnnualReview.GroupByField` | apps/worker/src/index.ts:447-454 | the map holds, per field in order of first occurrence, its confirmed facts in input order |
| `AnnualReview.FindContradictions` | apps/worker/src/index.ts:455-462 | the findings are those of the grouping, in map order |
| `AnnualReview.GroupingIsPartition` | apps/worker/src/index.ts:447-454 | every confirmed fact is in exactly one group, and nothing else is |
| `AnnualReview.ContradictionsAreExact` | apps/worker/src/index.ts:455-462 | a field is reported, with exactly its confirmed fact ids in order, if and only if two of them hold values that differ beyond key order |
| `AnnualReview.AssertReportProvenance` | packages/domain/src/workflows.ts:48-59 | the loop passes exactly the claims with evidence and a source version, and otherwise names what the first offender lacks |
| `AnnualReview.ClaimsShowTheirFacts` | packages/domain/src/workflows.ts:26-46 | a claim shows its fact: a confirmed one with its value, a disputed one without, a candidate or rejected one as missing |
| `AnnualReview.GenerateReport` | packages/reports/src/index.ts:15-45 | a report is refused exactly when a confirmed fact has no evidence; the version check never refuses |
| `Authorization.OwnerIsAllowedExactlyWhen` | packages/auth/src/policy.ts:49-116 | an owner is allowed anything with a purpose, a session of the last week and a second factor of the last twelve hours; else the first of these that is missing is the reason |
| `Authorization.MemberIsAllowedExactlyWhen` | packages/auth/src/policy.ts:49-116 | an editor, helper, adviser or viewer is allowed exactly to read, and but for viewers to create and update, what an active grant of the purpose names |
| `Authorization.RecipientIsDecidedExactly` | packages/auth/src/policy.ts:97-116 | an emergency recipient is allowed exactly to file a request, and to read released categories that an active grant of the purpose names |
| `Authorization.StaffIsAllowedExactlyWhen` | packages/auth/src/policy.ts:49-116 | an agent is allowed exactly to read what an approval of at most four hours and an active grant name, in a session of fifteen minutes; an administrator nothing |
| `Authorization.OnlyOwnersApprove` | packages/auth/src/policy.ts:49-116 | approving takes an owner or co-owner with a recent second factor |
| `Authorization.StaffNeedShortApproval` | packages/auth/src/policy.ts:77-96 | an administrator is never allowed, an agent only to read under an approval of at most four hours |
| `EmergencyAccess.StatementsAreDomainTransitions` | packages/domain/src/workflows.ts:61-93 | every status update is a transition of the domain's table, one version on |
| `EmergencyAccess.TransitionsBySource` | packages/domain/src/workflows.ts:61-93 | where each status may be entered from; denied and revoked are final |
| `EmergencyAccess.DecidingTakesEffectExactly` | apps/api/src/routes/vault.ts:1818-1938 | a decision takes effect exactly by an owner with a fresh session and second factor, on an undecided request at its version, with a delay of 1 to 168 hours |
| `EmergencyAccess.FilingTakesEffectExactly` | apps/api/src/routes/vault.ts:1705-1800 | a recipient's filing takes effect exactly with a category, in a session of the last week, for their own active membership under a new id |
| `EmergencyAccess.ReleasingTakesEffectExactly` | apps/api/src/routes/vault.ts:1940-2014 | a release takes effect exactly by such an owner, on a delayed request at its version whose time has come |
| `EmergencyAccess.IdentityIsTheMembership` | packages/auth/src/identity.ts:108-240 | a resolved identity is exactly its active membership: its grants, an agent's running approvals, and a recipient's categories of released requests whose time has come |
| `EmergencyAccess.ReleasesAgreeExactlyWithReleaseTime` | packages/database/src/repository.ts:1319-1337 | the release statement and the domain agree at every time if and only if a release time is set |
| `EmergencyAccess.EmergencyRepository.CreateEmergencyAccessRequest` | packages/database/src/repository.ts:1230-1270 | only the active recipient membership of the actor may file |
| `EmergencyAccess.EmergencyRepository.DecideEmergencyAccess` | packages/database/src/repository.ts:1287-1317 | the guarded decision |
| `EmergencyAccess.EmergencyRepository.ReleaseEmergencyAccess` | packages/database/src/repository.ts:1319-1337 | the guarded release, with its time gate |
| `EmergencyAccess.StepKeepsInvariant` | apps/api/src/routes/vault.ts:1705-2014 | every route and every membership change keeps the recorded history of each request |
| `EmergencyAccess.RecipientReadsOnlyWhatWasReleased` | packages/auth/src/identity.ts:170-228 | in every run a recipient's permission beyond filing is reading a category that the membership requested, an owner delayed by at least an hour and an owner released no earlier than that |
| `EmergencyAccess.RecipientReadsExactly` | packages/auth/src/identity.ts:170-228 | from the tables to the decision, a recipient reads exactly what was released to that membership and one of its active grants names |
| `Luhn.PassesLuhn` | packages/ai-gateway/src/dlp.ts:26-41 | the right-to-left loop computes the checksum of ISO/IEC 7812-1 Annex B on 13 to 19 digits |
| `Luhn.ChecksumIsTheStandardsSum` | packages/ai-gateway/src/dlp.ts:26-41 | the sum is the standard's, place by place from the right with the tens and units of each doubled digit |
| `Luhn.KnownNumbersPass` | packages/ai-gateway/src/dlp.ts:26-41 | 13 to 19 zeros pass, and so does 4242 4242 4242 4242 |
| `Luhn.ChangedDigitIsRejected` | packages/ai-gateway/src/dlp.ts:31-40 | one changed digit is always rejected |
| `Luhn.SwappedDigitsAreRejectedExceptZeroNine` | packages/ai-gateway/src/dlp.ts:31-40 | swapped neighbours are accepted if and only if they are equal or 0 and 9 |
| `Luhn.CheckDigitIsUnique` | packages/ai-gateway/src/dlp.ts:31-40 | each prefix has exactly one check digit |
| `Luhn.MistypedTextFails` | packages/ai-gateway/src/dlp.ts:26-41 | the same for a text with separators |
| `Provider.DeepSeekProvider.Invoke` | packages/ai-gateway/src/provider.ts:104-217 | at most retries + 1 calls, waits of at most five seconds each and 5000 ms per retry in all, no call while open; otherwise the outcome, the breaker and the waits are those of the replies |
| `Provider.AnswersReportTheirUsage` | packages/ai-gateway/src/provider.ts:171-201 | content is an answer exactly when its four counters are safe whole numbers, and each count is the counter of its own name, or zero |
| `Provider.BreakerCountsFailuresInARow` | packages/ai-gateway/src/provider.ts:104-217 | in every run the breaker holds the failures in a row since the last content, and is open for thirty seconds after each from the third on |
| `Provider.BackoffDoubles` | packages/ai-gateway/src/provider.ts:236-236 | the delay doubles from 250 ms and stays at two seconds |
| `Provider.FewInvocationsReachADeadService` | packages/ai-gateway/src/provider.ts:104-217 | from any breaker state, while the service is down at most 3 + floor(T/30000) invocations reach the transport in any T ms |
| `Provider.TheBoundIsReached` | packages/ai-gateway/src/provider.ts:211-212 | from a fresh breaker some run reaches exactly that many |
| `ClamAvFraming.Scan` | packages/documents/src/index.ts:158-186 | the framed stream is received as exactly the document, for every length; an empty document is refused |
| `ClamAvFraming.FramesAreFull` | packages/documents/src/index.ts:170-180 | a document takes four bytes more for each 64 KiB begun, and all frames but the last are full |

## Left out

- Cryptography is ideal: AES-GCM is a sealed term, HMAC and SHA-256 are functions (injective where a statement says so), signatures verify under their own key; key sizes are kept.
- PostgreSQL is kept to atomic commit, guarded updates, unique keys, row and advisory locks; isolation levels, row-level security, column widths and connection loss are not modelled.
- Queues, sockets, clocks and random numbers are parameters; redelivery is any repetition of a handler.
- The document protocol follows one document; several documents share nothing but the ledger of extraction keys, which is kept per document here.
- Beside a privacy deletion the other changes of access are single statements, or a check and a later insert for an approval; a new membership never belongs to the person, because ids are random and a person is created with their membership; no code of the repository inserts a grant, and the model lets one appear at any time.
- The privacy model has one deletion request per person; the order of the recorded hold categories is left open; sessions and processor requests are not part of it, and the idempotency records these routes write are the ones of the idempotency model.
- Billing event ids are taken within one household; `deriveBillingAccess` is a table of single branches.
- Household creation is modelled from its inserts on; its own account ledger repeats the idempotency protocol.
- Identity resolution starts from the caller's membership row; choosing a household among several is not modelled.
- A key of a household inserted at its creation is a run in which the first caller finds it.
- Strings are sequences of Unicode scalar values: lone surrogates are excluded, and length limits count scalar values where JavaScript counts UTF-16 units.
- A JSON number is the numeral ECMAScript prints for it; a parsed numeral in another form would be reprinted by the source.
- Objects with integer-like keys, which JavaScript enumerates first, keep their parsed order in the model, which shows only in a report claim printed by `JSON.stringify` and among keys the collation calls equal; `stableStringify` is modelled with the enumeration.
- Malformed UTF-8 decodes to one replacement character per byte; the platform may merge several.
- PortableExport.Open: does not model JavaScript's coercions of members of a wrong JSON type (a media type or content given as an array); they are refused with the error of the nearest check.
- Errors carry the source's message without interpolated values.
- `scanDlp`'s patterns, OCR subprocesses, the notification handler, retention rules, migrations, metrics, the HTTP and user interface layers would only add easy members.
- The AI cache's `purgeScope` reads and deletes in two steps and promises nothing under concurrency.

# Hundredth Sign: a verified model of signing, auditing and their algorithms

This project models, in Dafny, the server code of the Hundredth Sign e-signature platform that
decides who signs when, when a document counts as completed, what its audit log proves, and a few
self-contained algorithms, and proves what that code is for. `dafny verify dfyconfig.toml` checks
everything.

Four parts:

* **The workflow of one document.** `Rows` holds the request, approval and field rows and the
  queries over them; `Lifecycle` says what each handler does to the rows; `Workflow` has the
  handlers themselves, updating rows in place, each proved to do what `Lifecycle` says.
  `SigningRules` and `DocumentRules` say of every step exactly what changes and what is answered, in
  terms of the rows alone; `Addressees` whose addresses the rows carry. `Completion`, `Closing`,
  `SequentialRouting`, `ApprovalOutcome`, `DelegationSlots` and `Readiness` prove theorems over all
  runs of the handlers. `ConcurrentSigning` splits `sign` into
  its database accesses and treats any number of handlers under any schedule; `TurnByTurn` treats
  those in which everybody waits for their turn.
* **The audit log.** `CanonicalJson` and `JsonColumn` treat the text that is hashed and what the
  JSON column gives back; `JsonReading` reads that text by the grammar of JSON; `JsonLexing` where a pipe in such a text can stand; `HashChain` what a
  record hash determines; `AuditAppend` and `AuditTransactions` the appending transactions; `AuditVerify` the paged
  verification; `PiiEncryption` and `KeyRotation` encrypted IP addresses and logs written across
  key rotations. SHA-256 is any injective function, AES-GCM an ideal cipher.
* **Addresses.** `Email` and `AccountClaim` treat address matching and the two-phase claim;
  `IpAddress`, `Bits`, `Prefixes` and `Cidr` the IP parsers and the CIDR mask loop.
* **Layout and retries.** `WrapText`, `TextRuns` and `Certificate` treat the completion certificate,
  `Webhooks` the bounded retries of webhook deliveries.

`Text`, `Decimal` and `Wrappers` hold the library operations the code calls.

Clocks, database row ids, initialisation vectors, the outcome of storing a PDF, the answers of
webhook targets, and the widths of texts are parameters, so the theorems hold whatever they are.

## What the code does not do

Some properties one would expect of the code are false. For each there is a lemma that says exactly
when the property does hold, and a small instance in which it does not.

* A completed (or declined, voided, expired) document is not final: `decide` does not look at the
  document's status, so an approval left pending from an earlier round takes it back to draft
  (`Completion.CompletedIsFinalUnlessReopened`, `Closing.LeavesClosedIff`; instance
  `Completion.LateRejectionReopens`).
* Not only documents that are out are completed: `sign` turns away closed documents only, so the
  signers can complete a draft that was rejected, and a document that still awaits its approval
  (`Closing.CompletesWhenOutIff`; instances `Closing.SignedBeforeApproval`). If the PDF of such a
  last signature is not stored, the rollback puts the document out without its approval
  (`Closing.GoesOutIff`; instance `Closing.FailureBypassesApproval`).
* With sequential routing, two simultaneous `sign` handlers can leave a fully signed document out
  for good, because the notice to the next signer is written over that signer's signature
  (`ConcurrentSigning.ExactlyOnceIff`; `ConcurrentSigning.LateNoticeLosesCompletion` constructs the
  schedule). It cannot happen when everybody submits once and in turn
  (`TurnByTurn.OneByOneCompletesOnce`).
* The turn of sequential routing can be duplicated or lost, because the handlers trust recipients:
  `sign` does not ask whether the request was sent, `delegate` does not look at the role, and the
  last approval notifies the first signer row even if it was handed on. `SequentialRouting.TurnKeptIff`
  says of every step exactly when it keeps the turn, and `SequentialRouting.EveryTurnGuardIsNeeded`
  that any other step can be continued until the turn is wrong; they rest on `SignKeepsTurnIff`,
  `SignKeepsReleaseIff`, `FinishKeepsReleaseIff`, `HandOnKeepsTurnIff`, `HandOnKeepsReleaseIff` and
  `DeclineKeepsReleaseIff` about the rows (instances `EarlySigningDuplicatesTheTurn`,
  `HandedOnCopyDuplicatesTheTurn`, `DelegationBeforeReleaseLosesTheTurn`). Courtesy is enough, but
  not necessary (`SequentialRouting.CourtesyKeepsTheTurn`).
* A document can be out with a signer who has no field. Delegating a request that is not a signer's
  adds a signer nobody placed a field for. And a pending approval that is rejected while the
  document is out makes it a draft that can be edited; when the last signature on that draft cannot
  be stored, the rollback makes it "sent". `Readiness.ReadyKeptIff` says of every step exactly when
  it keeps the fields complete, and `Readiness.EveryReadyGuardIsNeeded` that any other step can be
  continued until the document is out with a gap (instances `Readiness.HandedOnCopyAddsASigner`,
  `Readiness.LateRejectionLosesAField`; see also `Readiness.RejectionKeepsQuietIff`).
* Delegation moves marks to other signers' fields for two reasons. A signer's delegate gets a later
  id, so signers who share an order change places; and the delegate of a recipient who is no signer
  stands before every signer of larger order. The order has one default for all recipients.
  `DelegationSlots.HandOnMovesNobodyIff` says exactly which delegations move nobody, and
  `DelegationSlots.EveryDelegationMovesNobodyIff` for which rows all do (instances
  `DelegationSlots.EqualOrdersSwapPlaces`, `DelegationSlots.HandedOnCopyShiftsPlaces`).
* The field index shown to a signer counts delegated rows, the index in the PDF does not
  (`DelegationSlots.ShownIndexIsPdfIndexIff`; instance `DelegationSlots.DelegationShiftsTheShownIndex`).
* Rolling back a failed PDF sets the request to "sent" and the document to "sent" whatever they
  were (`Closing.FailureRestoresIff`; instance `Closing.OpenedComesBackUnopened`).
* An honest record whose metadata had a member with the value `undefined` fails verification: the
  member is hashed, and the JSON column drops it (`KeyRotation.IntactAcrossRotationsIff`; instance
  `KeyRotation.VoidingWithoutReasonBreaksTheReport`). Voiding without a reason
  (server/routers/documents.ts:619) and deciding without a comment
  (server/routers/internalApproval.ts:125) write such metadata.
* The canonical text of `[null]` is that of `[]` (`CanonicalJson.SameTextIffSameVisible`; instance
  `JsonColumn.OneNullPrintsAsEmpty`).
* The certificate's header crosses the bottom margin with more than 43 title lines
  (`Certificate.DrawHeader`), and a title of up to 500 characters may hold line feeds (instance
  `Certificate.ManyShortLines`).

Four limits are real in the functions, but today's callers do not reach them:

* A pipe can move between event type and entity type (`HashChain.UnambiguousIff`; instance
  `HashChain.PipesCanMove`). Both types are closed unions of names without pipes
  (server/auditLog.ts:22-77).
* Claiming for an address with two "@" misses other spellings of it
  (`AccountClaim.PrefilterLosslessIff`; instance `AccountClaim.TwoAtsLoseRows`). The inputs take
  addresses through zod's `.email()`, which refuses them.
* Verification with a page size of zero reports every log intact
  (`AuditVerify.VerifyHashChainIntegrity`). All callers use the default of 500.
* A certificate box crosses the bottom margin when its user agent takes more than 55 lines
  (`Certificate.DrawBoxes`). A user agent is the value of an HTTP header, has no line feed and is
  cut to 120 characters; set in characters of at most ten points it takes at most six lines, and
  every box lies between the margins (`Certificate.UserAgentTakesFewLines`,
  `Certificate.AppendCertificate`).

Where comments and code disagree the code is followed: "the same hash regardless of insertion vs
read-back order" (server/auditLog.ts:93-97) holds only for metadata without undefined members.

## Model

| member | source | states |
|---|---|---|
| Rows.FirstBy | server/db.ts:292-304 | The row returned satisfies the condition and comes before every other such row in (order, id) order; none is returned only if there is none. |
| Rows.Ordered | server/db.ts:240-245 | The listed rows are exactly those that satisfy the condition, sorted by (order, id). |
| Rows.OrderedUnique | server/db.ts:240-245 | The (order, id) order leaves no choice: two sorted lists with the same members are equal. |
| Workflow.BuildPdfEntries | server/routers/signature.ts:394-425 | The nested loops produce the entries of each signer that counts, slot by slot, field by field. |
| Workflow.DocumentRows.GetByToken | server/routers/signature.ts:50-176 | Opening a request does what ViewStep says, refusals included. |
| Workflow.DocumentRows.NeedsMark | server/routers/signature.ts:262-289 | A mark is required exactly if one of the signer's own fields (or, for a row that is no signer, any field) is a signature or stamp field. |
| Workflow.DocumentRows.Sign | server/routers/signature.ts:209-693 | The handler does what SignStep says with the addresses compared by EmailsMatch: the refusals in their order, the all-signed check, the guarded completion, the rollback and the next signer. Whoever gets past the checks gave an address that matches the one of the request, and an accepted row is signed with the mark handed in. |
| Workflow.DocumentRows.Submit | server/routers/signature.ts:219-290 | The checks before marking, in their order, with the expiry side effect. |
| Workflow.DocumentRows.Accept | server/routers/signature.ts:297-689 | Marking, completing with the stored entries, rolling back, or notifying the next signer. |
| Workflow.DocumentRows.Decline | server/routers/signature.ts:695-779 | A decline closes the request and the document, or is refused as DeclineStep says. |
| Workflow.DocumentRows.Delegate | server/routers/signature.ts:782-874 | Delegation marks the row and adds one for the delegate with the same order, or is refused as DelegateStep says. |
| Workflow.DocumentRows.Release | server/routers/internalApproval.ts:154-206 | The loop leaves exactly the released rows. |
| Workflow.DocumentRows.SendForSignature | server/routers/documents.ts:289-584 | Sending replaces the requests and starts approval or releases them, or is refused as SendStep says. |
| Workflow.DocumentRows.DecideApproval | server/routers/internalApproval.ts:79-210 | The first decision counts; a rejection returns the document to draft; the last approval releases it. |
| Workflow.DocumentRows.Void | server/routers/documents.ts:586-624 | Only a sent or declined document is voided, as by the REST route. |
| Workflow.DocumentRows.Delete | server/routers/documents.ts:625-652 | Deletion removes the document and all its rows. |
| Workflow.DocumentTable.ProcessExpirations | server/scheduler.ts:96-120 | Exactly the documents that are sent with an expiry date not after now become expired, all else is kept. |
| SigningRules.AcceptedIff | server/routers/signature.ts:219-290 | A submission is accepted if and only if its address matches, a mark is given where a signature or stamp field stands at the place of the row among the signer rows, the row is no cc row, not handed on, not signed and not declined, the organization is active, and the document is neither closed nor past its expiry. |
| SigningRules.BecomesSignedIff | server/routers/signature.ts:219-308 | In any step of any run a request becomes signed if and only if the step is its own acceptable submission and, should it be the last signature, the PDF is stored; its mark is the one handed in. |
| SigningRules.BecomesSentIff | server/routers/signature.ts:630-690 | A request becomes sent if and only if its own last signature could not be stored, it is the next in line of sequential routing after an accepted signature, or the last approval releases it. |
| SigningRules.OtherStatusesIff | server/routers/signature.ts:50-176 | A request becomes viewed or declined by its own recipient under exactly these conditions, and its status changes to no other value. |
| SigningRules.IdentityIsKept | server/routers/signature.ts:297-308 | Address, role, order and access code of a request never change; it is handed on exactly by its own accepted delegation, and its mark changes exactly with its submissions. |
| DocumentRules.RowsAfterSending | server/routers/documents.ts:312-475 | Field by field: after an accepted sending there is one request for each recipient with that address, order, access code and role, sent or pending as the routing and the approvers say; one pending approval for each approver; and the expiry of the sending. |
| DocumentRules.DocumentChanges | server/routers/signature.ts:363-388 | For every step, the exact cause of each change of a document: status (a document becomes declined exactly by an accepted decline, and so on for all statuses), routing, expiry, completion date, stored PDF; it disappears exactly by deletion. |
| DocumentRules.ApprovalsAndFieldsChange | server/routers/internalApproval.ts:79-163 | An approval changes exactly when it is decided for the first time or the document is sent, fields exactly when a draft is edited. |
| DocumentRules.SignAnswers | server/routers/signature.ts:219-290 | Every answer of sign with its exact cause. |
| DocumentRules.RecipientAnswers | server/routers/signature.ts:782-812 | Every answer of opening, declining and delegating with its exact cause. |
| DocumentRules.SendAnswers | server/routers/documents.ts:289-345 | Every answer of sending with its exact cause: a draft, a file, somebody who signs, and a field for each of the places of those who do. |
| DocumentRules.DecideAndVoidAnswers | server/routers/internalApproval.ts:79-128 | Every answer of deciding and voiding with its exact cause. |
| Addressees.FromANewDraft | server/routers/signature.ts:814-833 | In every state reachable from a new draft the rows carry, in order, the addresses of the last accepted sending and then those of the delegations accepted since. |
| Addressees.EveryDelegateHasARequest | server/routers/signature.ts:814-833 | In every such state each request that was handed on has a later request of its own, a signer's, with the address it was handed on to, the same order and the same access code. |
| Addressees.DelegateMaySign | server/routers/signature.ts:262-268 | After an accepted delegation a timely submission on the new row is accepted if and only if its address matches the delegate's; the delegator's own row is refused as delegated. |
| Completion.CompletedMeansSigned | server/routers/signature.ts:363-388 | In every state reachable from a new draft by any steps, "completed" means that there is a signer who has not handed on, that all such signers have signed, and that the stored PDF holds exactly their marks. |
| Completion.RunKeepsSound | server/routers/signature.ts:231-388 | The invariant behind it, kept by every run of all steps. |
| Completion.CompletedIsFinalUnlessReopened | server/routers/internalApproval.ts:129-157 | A completed document stays completed under a step if and only if the step neither deletes it nor rejects a pending approval nor gives the last one; its signed rows then stay as they are. |
| Completion.LateRejectionReopens | server/routers/internalApproval.ts:129-140 | Such a reopening is reachable from a new draft. |
| Closing.RefusalChangesNothing | server/routers/signature.ts:219-250 | A handler that answers with an error has changed nothing, unless it noticed the expiry or could not store the PDF. |
| Closing.FailureRestoresIff | server/routers/signature.ts:630-655 | The rollback restores the rows if and only if the document was out and the request "sent" without a mark. |
| Closing.OpenedComesBackUnopened | server/routers/signature.ts:630-655 | A request that was opened comes back as not opened. |
| Closing.LeavesClosedIff | server/routers/internalApproval.ts:79-157 | A document that is completed, declined, voided or expired leaves that group by deleting, rejecting a pending approval or giving the last one, and by nothing else. |
| Closing.ClosedStaysClosed | server/routers/signature.ts:241-243 | Through any run without those steps it stays closed, only "declined" can become "voided", and no request changes except from sent to viewed. |
| Closing.WaysToCloseIff | server/db.ts:927-935 | A document that is out is closed by voiding, by an expiry that is due or noticed by a submission, by an accepted decline and by a last signature whose PDF is stored, and by nothing else. |
| Closing.NothingSignedOnceClosed | server/routers/signature.ts:241-243 | After any run without those steps every further submission is turned away. |
| Closing.CompletesWhenOutIff | server/routers/signature.ts:241-243 | A step completes a document that is not out if and only if it is an accepted last signature, with its PDF stored, on a draft or a document that awaits approval. |
| Closing.SignedBeforeApproval | server/routers/signature.ts:241-243 | From a new draft, a document is signed to completion while it awaits approval, and another after its rejection. |
| Closing.OnlySigningCompletes | server/routers/signature.ts:363-388 | A document becomes completed only by an accepted submission that leaves all signers signed and whose PDF is stored. |
| Closing.GoesOutIff | server/routers/signature.ts:630-655 | A step puts a document out if and only if it sends it without approvers, gives the last approval, or is a last signature, with its PDF not stored, on a draft or a document that awaits approval. |
| Closing.FailureBypassesApproval | server/routers/signature.ts:630-655 | From a new draft, such a failure puts a document out while both its approvals are pending. |
| SequentialRouting.TurnKeptIff | server/routers/signature.ts:660-690 | Any step of any handler keeps the turn, now and for when the last approval releases the document, if and only if it satisfies its guard: the signer has the turn or the next in line needs no notice, whoever hands on is a signer or waits behind, and the like before the release. |
| SequentialRouting.RunKeepsTurn | server/routers/internalApproval.ts:129-206 | The invariant through any run of guarded steps: sending, approval, delegation, refusals and PDF failures. |
| SequentialRouting.ExactlyOneTurn | server/routers/signature.ts:660-690 | While a sequentially routed document is out, after any guarded run of all steps from a new draft, exactly one signer that counts has the turn, all of smaller order have signed, and all others have signed or wait with no smaller order. |
| SequentialRouting.EveryTurnGuardIsNeeded | server/routers/signature.ts:660-690 | If a guarded run from a new draft goes on with a step that ignores its guard, there is a continuation after which the document is out without exactly one turn. |
| SequentialRouting.CourtesyKeepsTheTurn | server/routers/signature.ts:660-690 | Exactly one turn in every run in which recipients act only on what was sent to them and only signers hand on. |
| SequentialRouting.SignKeepsTurnIff | server/routers/signature.ts:660-690 | While the document is out, a signature that is not the last leaves exactly one turn if and only if the signer had it, nobody is left to notify, or the next in line has been notified. |
| SequentialRouting.SignKeepsReleaseIff | server/routers/internalApproval.ts:158-206 | The same of a signature given before the last approval, for the turn after it. |
| SequentialRouting.FinishKeepsReleaseIff | server/routers/signature.ts:363-388 | The same of a last signature, stored or rolled back, given before the last approval. |
| SequentialRouting.HandOnKeepsTurnIff | server/routers/signature.ts:814-833 | While the document is out, a delegation leaves exactly one turn if and only if a signer hands on, or the delegate will wait behind whoever has the turn. |
| SequentialRouting.HandOnKeepsReleaseIff | server/routers/signature.ts:814-833 | The same of a delegation before the last approval, which notifies the first signer row even if it was handed on. |
| SequentialRouting.DeclineKeepsReleaseIff | server/routers/signature.ts:695-779 | The same of a decline before the last approval. |
| SequentialRouting.ReleaseStartsTheTurn | server/routers/documents.ts:447-475 | Releasing rows nobody was notified of gives the turn to the first signer in (order, id) order and to nobody else. |
| SequentialRouting.TurnPasses | server/db.ts:292-304 | After the signer with the turn signs and others remain, exactly one other gets it. |
| SequentialRouting.RollbackReturnsTheTurn | server/routers/signature.ts:630-655 | After a PDF failure the last signer has the turn again. |
| SequentialRouting.EarlySigningDuplicatesTheTurn | server/routers/signature.ts:660-664 | Of three signers the second signs while the first has opened the document: two have the turn. |
| SequentialRouting.HandedOnCopyDuplicatesTheTurn | server/routers/signature.ts:814-833 | A cc recipient hands on the copy: two signers have the turn. |
| SequentialRouting.DelegationBeforeReleaseLosesTheTurn | server/routers/internalApproval.ts:165-177 | The first signer hands on before the last approval: nobody has the turn after it. |
| ApprovalOutcome.RunIsOutcome | server/routers/internalApproval.ts:80-163 | Any sequence of decisions, repeats and contradictions included, leaves the state that each approver's first decision determines. |
| ApprovalOutcome.OrderDoesNotMatter | server/routers/internalApproval.ts:80-163 | Two sequences with the same first decisions end in the same state. |
| ApprovalOutcome.SentIffAllApproved | server/db.ts:591-598 | The document is sent if and only if all approved, draft if and only if somebody rejected, and no request is touched before the last approval. |
| DelegationSlots.DelegateTakesTheSlotIff | server/routers/signature.ts:814-833 | A delegate takes over the delegator's place in the PDF if and only if no later signer that counts has the same order. |
| DelegationSlots.EqualOrdersSwapPlaces | server/routers/signature.ts:814-833 | Of two signers with the default order the first hands on, and the second moves to the first place. |
| DelegationSlots.AddedPlaceIsLastIff | server/routers/signature.ts:814-833 | A delegation of a row that does not count adds a last place and moves no other if and only if no signer that counts has a larger order. |
| DelegationSlots.HandedOnCopyShiftsPlaces | server/routers/signature.ts:814-833 | A cc recipient with the default order hands on the copy, and the delegate stands before the second signer although the signers' orders are distinct. |
| DelegationSlots.HandOnMovesNobodyIff | server/routers/signature.ts:814-833 | Of any row: its delegation gives the place to the delegate, or adds one behind, and moves nobody else, if and only if no later signer that counts shares the order of a signer that counts, or none has a larger order than a row that does not. |
| DelegationSlots.EveryDelegationMovesNobodyIff | server/routers/signature.ts:782-833 | No delegation that is accepted moves anybody if and only if signers that count share their order with an earlier one only if that one has signed, and every other row that may be handed on has no smaller order than any signer that counts. |
| DelegationSlots.SignersDelegationsSafeIffOrdersDistinct | server/routers/signature.ts:814-833 | Of the signers that count alone: all their delegations keep all places if and only if their orders are pairwise distinct. |
| DelegationSlots.StepMovesNobodyIff | server/routers/signature.ts:814-833 | A step that neither sends anew nor deletes keeps everybody's place if and only if it is no accepted delegation, or one that moves nobody. |
| DelegationSlots.SlotsFollowHolders | server/routers/signature.ts:814-833 | After any run of such steps, with any chains of delegations by signers and others, the k-th signer that counts is the current holder of the k-th original place, or of one added behind. |
| DelegationSlots.DistinctOrdersAreSafe | server/routers/signature.ts:814-833 | With distinct orders of the signers that count, every run is of that kind in which other recipients hand on only with a larger order than all of them. |
| DelegationSlots.EntriesPairFieldsWithHolders | server/routers/signature.ts:394-425 | An entry is in the PDF if and only if it pairs a field with the signer at the field's index and carries that signer's mark. |
| DelegationSlots.EntriesInOrder | server/routers/signature.ts:394-425 | The PDF has exactly one entry for each field at the place of a signer with a mark, ordered by places and then by fields. |
| DelegationSlots.EntriesFollowHolders | server/routers/signature.ts:394-425 | After such a run, an entry is in the PDF if and only if it pairs a field with whoever now holds the place of the field's index, and carries that holder's mark. |
| DelegationSlots.ShownIndexIsPdfIndexIff | server/routers/signature.ts:140-164 | The index shown to a signer is the index in the PDF if and only if no delegated signer row comes before. |
| DelegationSlots.DelegationShiftsTheShownIndex | server/routers/signature.ts:140-164 | After the first of two signers hands on, the second is shown another index than the PDF uses. |
| Readiness.ReadyKeptIff | server/routers/documents.ts:312-345 | Any step keeps a field for every signer that counts, as long as the document is out or can get out without being sent again, if and only if it does not hand on a request of no signer without a spare field, nor fail to store the last signature on a draft without its fields. |
| Readiness.RunKeepsReady | server/routers/signature.ts:782-874 | The invariant through any run of guarded steps. |
| Readiness.EverySignerOfASentDocumentHasAField | server/routers/documents.ts:312-345 | What sending checks once is kept: after any guarded run of all steps from a new draft, a document that is out has a file, and every place among its signers that count has a field. |
| Readiness.EveryReadyGuardIsNeeded | server/routers/documents.ts:312-345 | If a guarded run from a new draft goes on with a step that ignores its guard, there is a continuation after which the document is out without a file or with a signer without a field. |
| Readiness.RejectionKeepsQuietIff | server/routers/internalApproval.ts:129-157 | A rejection leaves a draft nobody was notified of if and only if the document was a draft or awaited approval, or all requests are still pending. |
| Readiness.TimelyRunsAreReady | server/routers/internalApproval.ts:129-157 | With courteous recipients, runs without late rejections satisfy all the guards. |
| Readiness.LateRejectionLosesAField | server/routers/signature.ts:630-655 | From a new draft, with courteous recipients, a late rejection, an edit and a PDF failure leave a document out with a signer and no field. |
| Readiness.DelegationKeepsCountIff | server/routers/signature.ts:814-833 | A delegation keeps the number of signers that count if and only if the request is a signer's. |
| Readiness.HandedOnCopyAddsASigner | server/routers/signature.ts:814-833 | A cc recipient hands on the copy: one signer becomes two. |
| ConcurrentSigning.AloneIsSignStep | server/routers/signature.ts:209-690 | Without an expiry date, a handler that runs its database accesses without interruption leaves rows, document and answer exactly as the one-step handler does. |
| ConcurrentSigning.AtMostOnce | server/routers/signature.ts:363-388 | Under every schedule and either routing at most one handler passes the guarded update, at most one PDF is stored, and only on a completed document. |
| ConcurrentSigning.AlwaysCompletes | server/routers/signature.ts:297-387 | When no late notice is possible and all handlers have finished, the document is completed with all signers signed and exactly one stored PDF, which shows for each of them a mark handed in for them. |
| ConcurrentSigning.StepComesFrom | server/routers/signature.ts:297-308 | Under every schedule a signed row is as it was at the start or carries a mark that one of its handlers handed in. |
| ConcurrentSigning.LateNoticeLosesCompletion | server/routers/signature.ts:660-664 | Otherwise some schedule ends with every handler finished and the document still out. |
| ConcurrentSigning.ExactlyOnceIff | server/routers/signature.ts:297-387 | Such exactly-once completion under all schedules holds if and only if no late notice is possible: parallel routing, nobody left to notify, or a single signer left. |
| TurnByTurn.OneByOneCompletesOnce | server/routers/signature.ts:660-690 | With sequential routing and any number of signers to notify, if each signer submits once and in turn, every schedule that finishes all handlers ends in exactly-once completion. |
| TurnByTurn.StepKeepsInTurn | server/routers/signature.ts:297-690 | The invariant behind it: at most one handler is past its reading, and everybody else has signed or waits. |
| TurnByTurn.SomebodyMayMove | server/routers/signature.ts:660-690 | As long as some handler has not finished, some handler may take a step in turn. |
| Text.TrimDrops | shared/email.ts:31-31 | Trimming takes away the white space around a text and nothing else. |
| Email.NormalizesTo | shared/email.ts:28-53 | Of an address with white space around it, the tag from "+" on and, in the two Gmail domains, the dots of what stands before are left out, capitals become small, and nothing else changes; if nothing is left before the "@" there is no normal form. |
| Email.WithoutKeepsOthers | shared/email.ts:45-47 | Taking a character out of a text takes out each of its occurrences and keeps every other character where it stands. |
| Text.LowerOfLetters | shared/email.ts:31-31 | Each capital letter becomes the small letter of the same place in the alphabet; no other character changes. |
| Email.NoAddressWithoutDomain | shared/email.ts:31-33 | A text without "@", or with nothing behind the last one, has no normal form. |
| Email.EmailsMatchIff | shared/email.ts:28-66 | Two addresses match if and only if, trimmed and lower-cased, both have something on either side of the last "@" and agree in the domain and in the base of the local part. |
| Email.MatchMeansSameDomain | shared/email.ts:58-66 | Addresses that match have the same domain. |
| Email.AliasMatches | shared/email.ts:28-66 | A plus alias with any tag in front of the "@" gives another spelling of the same mailbox. |
| Email.DotMatchesIff | shared/email.ts:40-47 | A dot put into the local part gives another spelling if and only if the domain is Gmail's or the dot stands behind a plus. |
| Email.NormalizeIdempotent | shared/email.ts:28-53 | Normalizing twice is normalizing once. |
| AccountClaim.ClaimTable.ClaimByEmail | server/db.ts:737-823 | With at most one "@" and no white space, exactly the unowned rows whose address is the given one up to case or matches it get the user, everything else stays, and the result counts the rows changed. |
| AccountClaim.TwoPhasesReachAll | server/db.ts:737-781 | The exact phase and the prefiltered alias phase reach exactly the rows of a direct scan. |
| AccountClaim.PrefilterLosslessIff | server/db.ts:750-770 | For addresses without white space the prefilter loses no row of any table if and only if the address has at most one "@" or no normal form. |
| AccountClaim.TwoAtsLoseRows | server/db.ts:750-770 | For "a@b@c" it loses a row. |
| AccountClaim.SecondClaimFindsNothing | server/db.ts:737-823 | After a claim nothing is left to claim, and owned rows never change. |
| CanonicalJson.TextsSeparated | server/auditLog.ts:98-107 | No canonical text followed by a delimiter is the beginning of another: what a text shows can be read off from it. |
| CanonicalJson.SameTextIffSameVisible | server/auditLog.ts:98-107 | Two values have the same text if and only if they are the same up to key order, null for undefined, and one null for none in a list. |
| JsonReading.TextSaysTheValue | server/auditLog.ts:98-107 | A reader written from the grammar of JSON, with the empty text for null and keys in increasing order, reads the canonical text of a value as that value, up to null for undefined and one null for none in a list, and reads all of it. |
| JsonReading.LessIsComesBefore | server/auditLog.ts:105-106 | The order of keys is the one by the first character in which they differ. |
| JsonReading.EscapesAreShort | server/auditLog.ts:98-107 | Only quotes, backslashes and control characters are escaped, seven of them by one letter, as JSON.stringify does. |
| JsonColumn.InjectiveUpToKeyOrder | server/auditLog.ts:98-107 | Without null and undefined, equal texts mean equal values up to key order, and conversely. |
| JsonColumn.OneNullPrintsAsEmpty | server/auditLog.ts:102-104 | A list of one null prints as the empty list. |
| JsonColumn.ColumnRoundTripIff | server/auditLog.ts:198-198 | Metadata read back from the JSON column, in any key order, has the text that was hashed if and only if no object in it had an undefined member. |
| Decimal.IntTextInjective | server/auditLog.ts:118-121 | Different integers print differently. |
| Decimal.IntTextReads | server/auditLog.ts:118-121 | A number is written in decimal so that it is read as itself, without leading zeros. |
| JsonLexing.CanonicalReturns | server/auditLog.ts:98-107 | Read character by character, a canonical text starts and ends outside string literals and has no pipe outside them. |
| JsonLexing.NoTextBehindPipe | server/auditLog.ts:98-107 | So what stands behind a pipe of a canonical text is never itself one. |
| HashChain.PayloadWrittenOut | server/auditLog.ts:109-126 | The payload is these eight texts with a pipe between any two: the link or GENESIS, the types and numbers or nothing, the address, the time and the metadata or nothing. |
| HashChain.PayloadDeterminesFields | server/auditLog.ts:109-126 | The payload of an entry with no pipe outside its metadata equals that of any other link, entry and time, pipes or not, if and only if link, time and every hashed field agree. |
| HashChain.UnambiguousIff | server/auditLog.ts:114-123 | With a pipe-free IP address, a payload belongs to one link, time and set of hashed fields if and only if neither the event type nor the entity type holds a pipe. |
| HashChain.PipesCanMove | server/auditLog.ts:114-123 | With a pipe in the event type, two different entries have the same payload. |
| HashChain.SameHashSameRecord | server/auditLog.ts:109-126 | Equal record hashes at any positions of a verified log without pipes and of any other verified log mean agreeing records and equal links. |
| HashChain.TamperEvidence | server/auditLog.ts:587-620 | A fully verified log without pipes outside its metadata and any other fully verified log that ends in the same hash have the same length and agree record by record. |
| AuditAppend.AuditLog.Append | server/auditLog.ts:148-213 | One row is added, or none if the insert fails; each of its columns is said: id, types, organization, actor, sealed address, stored metadata, the hash of the row before, its own hash and the time. |
| AuditAppend.AuditLog.AppendBatch | server/auditLog.ts:261-322 | The loop that chains in memory leaves the fold of single appends with the same stamps, or the old rows if any insert fails. |
| AuditAppend.AppendAllJoins | server/auditLog.ts:261-322 | Appending two batches is appending their concatenation. |
| AuditAppend.AppendFirstContents | server/auditLog.ts:285-313 | A fold of appends keeps the log before it and writes the entries in order, each linked to the record before. |
| AuditAppend.LatestIsLast | server/auditLog.ts:165-168 | The row with the greatest id is the last one committed. |
| AuditAppend.NextKeepsValid | server/auditLog.ts:148-213 | Every lock, insert, commit and rollback of any client keeps the invariant. |
| AuditAppend.InterleavedIsSerial | server/auditLog.ts:126-147 | Any interleaving of any number of clients commits the log of its committed transactions run one after the other, entry by entry; row ids increase. |
| AuditAppend.OneChain | server/auditLog.ts:148-213 | In every reachable state the committed log is linked from a null genesis, each record holding, column by column, its own entry. |
| AuditAppend.CommittedBatchesContiguous | server/auditLog.ts:254-260 | In every state reached by any interleaving of clients, the records of each committed transaction lie together in the committed log, in order. |
| AuditTransactions.CommitLeavesAll | server/auditLog.ts:261-322 | A transaction that locks the table, inserts all its entries and commits leaves exactly what appending them singly with those stamps leaves, and the lock free. |
| AuditTransactions.RollbackLeavesNothing | server/auditLog.ts:261-322 | One that rolls back after any number of inserts leaves nothing but a gap in the row ids. |
| AuditTransactions.OthersWait | server/auditLog.ts:126-147 | While one client holds the lock no step of any other changes anything. |
| AuditTransactions.CommittedWereLocked | server/auditLog.ts:126-147 | In every run of any number of clients each committed batch is one that a client locked the table for and committed without rolling back, and the spans from lock to commit do not overlap. |
| AuditVerify.ScanPages | server/auditLog.ts:530-628 | For any page size of at least one the two loops give the report of one left-to-right pass; with page size zero the log is reported intact. |
| AuditVerify.VerifyHashChainIntegrity | server/auditLog.ts:518-628 | For every organization filter and page size of at least one: intact if and only if every record of the organization, all if none is given or its id is 0, passes or is unverifiable; otherwise the id reported is that of its first bad record in table order, and the counts are those of its verified and unverifiable records before it. |
| AuditVerify.CheckRecord | server/auditLog.ts:553-620 | A record is broken, skipped or verified exactly as link, decryption and hash say. |
| AuditVerify.ReportMeans | server/auditLog.ts:500-510 | The record named is the first that does not pass, verified and unverifiable count exactly the records before it, and intact means there is none. |
| AuditVerify.GloballyIntactIsIntactForEachOrganization | server/auditLog.ts:565-587 | A globally intact log is intact under every organization filter. |
| AuditVerify.IntactLogsWithOneEndAgree | server/auditLog.ts:587-620 | Of two logs reported intact with nothing unverifiable that end in the same hash, one without pipes outside its metadata, both have the same length and every hashed field agrees. |
| PiiEncryption.DecryptAfterEncrypt | server/piiEncryption.ts:110-176 | What was stored comes back if it was not sealed or its key is the primary or previous one, and as the mask otherwise. |
| PiiEncryption.Keys.GetKey | server/piiEncryption.ts:52-66 | The cached primary key is always the configured one. |
| PiiEncryption.Keys.GetPrevKey | server/piiEncryption.ts:71-81 | The cached previous key is always the configured one. |
| PiiEncryption.Keys.Encrypt | server/piiEncryption.ts:110-128 | With a key text of 64 characters every non-empty plaintext is stored sealed under that key behind "enc:v1:", without one as it is; an empty one is not stored. |
| PiiEncryption.Keys.Decrypt | server/piiEncryption.ts:136-176 | A text behind "enc:v1:" or the older "enc:" is opened with the configured primary key, then with the previous one, and masked otherwise; any other text comes back as it is. |
| KeyRotation.WrittenPassesIff | server/auditLog.ts:551-620 | A record of an honest log passes verification if and only if its key is gone or its metadata had no undefined member. |
| KeyRotation.IntactAcrossRotationsIff | server/auditLog.ts:551-628 | For a log written under any sequence of keys and checked under any two: intact if and only if every record whose key is not gone had metadata without undefined members, and then the unverifiable records are exactly those whose key is gone. |
| KeyRotation.CommittedLogIntactIff | server/auditLog.ts:148-213 | The same, with the count of unverifiable records, of the committed log of any interleaving of append transactions. |
| KeyRotation.VoidingWithoutReasonBreaksTheReport | server/routers/documents.ts:612-621 | The log that holds only the record of voiding without a reason is reported broken, whatever the keys. |
| IpAddress.ParseIntReadsHex | server/clientIp.ts:66-70 | parseInt in base 16 reads one to four hexadecimal digits of either case as their value. |
| IpAddress.ParseIntReadsDecimal | server/clientIp.ts:85-92 | In base ten parseInt skips white space, takes a sign and the digits behind it and ignores the rest; without a digit there it gives no number. |
| IpAddress.FullForm | server/clientIp.ts:56-73 | Eight groups with colons between them are read as their values. |
| IpAddress.CompressedForm | server/clientIp.ts:56-73 | Two runs of groups around a double colon are read with the missing zeros between them. |
| IpAddress.PrintParse | server/clientIp.ts:47-74 | Any eight groups, printed as in section 2.2 of RFC 4291 with any run of zeros shortened or none, are read back. |
| IpAddress.DottedForm | server/clientIp.ts:35-41 | Four decimal numbers up to 255 are read as their values. |
| IpAddress.DottedIff | server/clientIp.ts:35-41 | Decimal numbers with dots between them are an address if and only if there are four and none is above 255. |
| IpAddress.MappedFormAgrees | server/clientIp.ts:48-54 | The dotted form of an IPv4-mapped address, in any case, and its hexadecimal form are the same address. |
| IpAddress.ColonsIff | server/clientIp.ts:47-74 | Groups of up to four hexadecimal digits with colons between them are an address if and only if there are eight. |
| IpAddress.AroundColonsIff | server/clientIp.ts:56-65 | Around a double colon they are if and only if there are at most eight. |
| Bits.MaskedEqualIff | server/clientIp.ts:119-124 | Two numbers agree under a mask of high ones exactly when they agree after dropping the low bits. |
| Prefixes.LastElementDecides | server/clientIp.ts:117-126 | The comparison of the element in which the prefix ends decides whether the prefixes agree. |
| Prefixes.LongerPrefixDetermines | server/clientIp.ts:103-129 | Addresses with equal prefixes have equal shorter prefixes. |
| Cidr.RangeReadsBack | server/clientIp.ts:79-98 | Every range of either version, its address printed with any run of zeros shortened, is read back from address, slash and decimal length; without the length, or with nothing behind the slash, it is read as the single address. |
| Cidr.LengthIff | server/clientIp.ts:79-98 | Of what stands behind the slash only the leading number counts, whatever follows it; it is refused if and only if it is negative or above 32, or 128 for version 6. |
| Cidr.NoAddressNoRange | server/clientIp.ts:79-98 | A text that is no address of either version is no range, with or without a length. |
| Cidr.SamePrefix | server/clientIp.ts:117-128 | The mask loop answers whether the two addresses have equal quotients by 2^(N-p). |
| Cidr.IpInCidr | server/clientIp.ts:103-129 | An address is in the range exactly if it parses for the range's version and has the range's prefix. |
| Cidr.NestedOrDisjoint | server/clientIp.ts:103-129 | Of two ranges of one version the longer is inside the shorter or they share no address. |
| Cidr.NestedIff | server/clientIp.ts:103-129 | An address of the longer range is in the shorter one if and only if the longer range's address is. |
| WrapText.WordsShape | server/pdf.ts:692-692 | No word holds white space, and only the first and last can be empty. |
| WrapText.Wrap | server/pdf.ts:683-707 | The loops leave the lines of each paragraph, in order. Of the text nothing is lost or changed: without white space lines and text are the same, neighbouring characters stay neighbours on one line, characters apart are kept apart by one space or the end of a line, and no line has any other white space. |
| WrapText.LinesHoldText | server/pdf.ts:683-707 | The same of the layout for any width, over the runs of characters that are not white space. |
| WrapText.WrapParagraph | server/pdf.ts:688-704 | A blank paragraph is one empty line; the loop over the words of any other leaves the greedy layout of its words. |
| WrapText.LoopIsGreedy | server/pdf.ts:693-704 | The words are laid out greedily; white space at the end of a paragraph stays as one space if it fits. |
| WrapText.ParagraphKeepsWords | server/pdf.ts:693-704 | The lines of a paragraph joined with spaces are its words joined with spaces, up to one space at the end if it ended in white space: nothing is lost or reordered. |
| WrapText.ParagraphIsShort | server/pdf.ts:693-704 | If every text of c characters fits, a paragraph of m characters takes at most 1 + 2m / (c + 2) lines. |
| WrapText.ParagraphFits | server/pdf.ts:697-702 | Every line fits the width or is a single word. |
| WrapText.FewestLines | server/pdf.ts:693-704 | For a width that grows with the stretch of words, no layout of the same words has fewer lines. |
| Certificate.DrawTexts | server/pdf.ts:886-940 | Every baseline of a box lies inside it, from the top down, any two at least eleven points apart. |
| Certificate.DrawBoxes | server/pdf.ts:837-945 | Boxes of one page are ten points apart or more, a page is left exactly when the next box does not fit, and a box keeps above the bottom margin if and only if its user agent takes at most 55 lines. |
| Certificate.DrawHeader | server/pdf.ts:773-835 | The header keeps above the bottom margin if and only if the title takes at most 43 lines. |
| Certificate.LayOut | server/pdf.ts:754-955 | All of this for any number of signers, with the boxes below the header and the footer below the boxes of its page and always above the bottom margin. |
| Certificate.UserAgentShown | server/pdf.ts:841-847 | A user agent is shown whole up to 120 characters, and as its first 117 and three dots beyond. |
| Certificate.UserAgentTakesFewLines | server/pdf.ts:841-847 | A user agent of one line, cut to 120 characters, takes at most six lines if no text is wider than ten points a character. |
| Certificate.ManyShortLines | server/pdf.ts:798-811 | A title of 44 one-letter lines is short enough to be accepted and takes more than 43 lines. |
| Certificate.AppendCertificate | server/pdf.ts:714-955 | The same with the title and user agents wrapped by wrapText; and then every box lies between the margins, whatever the user agents. |
| Webhooks.RetriesAreBounded | server/integrations.ts:279-407 | Over any run of emissions and non-overlapping passes each delivery makes at most five attempts, attempt k + 1 at least 5 * 2^(k - 1) minutes after failed attempt k and none after a success; what is due next is due exactly then; and a delivered one never changes. |
| Webhooks.DueExactly | server/integrations.ts:279-283 | A failed attempt is due again from exactly 5, 10, 20 or 40 minutes after its answer on, by its number; a success and a fifth failure never are. |
| Webhooks.RetrySendsIff | server/integrations.ts:366-394 | A retry sends if and only if the webhook is active and fewer than five attempts were made; otherwise it gives the delivery up and changes nothing else. |
| Webhooks.RetryConsistent | server/integrations.ts:285-323 | One retry keeps this, and uses up an attempt. |
| Webhooks.PassUsesUpAttempts | server/integrations.ts:353-407 | A pass that finds something due decreases the number of attempts left in the table. |
| Webhooks.PassRetriesEachOnce | server/integrations.ts:353-407 | A pass retries each delivery it read once and touches no other. |
| Webhooks.DeliveryTable.EmitEvent | server/integrations.ts:325-351 | An event adds a delivery after its first attempt. |
| Webhooks.DeliveryTable.ProcessRetries | server/integrations.ts:353-407 | processed is the number of rows read and the sum of delivered and failed, delivered the number that are delivered afterwards. |

## Left out

- E-mails, translations, activity-log texts, HTTP, sessions, permissions of organization members and the client: no deep property, or foreign code.
- `sign` running at the same time as `decline`, `void`, expiry or a PDF failure: the writes are unguarded and nothing is promised.
- That every schedule of handlers ends: the theorems speak of the states in which all have ended.
- ConcurrentSigning.ExactlyOnceIff: the document does not expire and no approver-role row signs; the stored entries are those of the handler that stores.
- SequentialRouting.ExactlyOneTurn: holds for runs of guarded steps, not for all runs; EveryTurnGuardIsNeeded shows that no guard can be dropped.
- Readiness.EverySignerOfASentDocumentHasAField: holds for runs of guarded steps, not for all runs; EveryReadyGuardIsNeeded shows that no guard can be dropped.
- DelegationSlots.SlotsFollowHolders: holds for runs whose delegations move nobody, not for all runs; StepMovesNobodyIff says which those are.
- Email.EmailsMatchIff: lower-casing covers ASCII letters.
- Email.AliasMatches: stated for addresses and tags without white space.
- AccountClaim.ClaimTable.ClaimByEmail: SQL equality is equality up to ASCII case, and the update has no races.
- CanonicalJson.SameTextIffSameVisible: keys are ordered by code point, which differs from the code's UTF-16 order above U+FFFF; lone surrogates and dates are not modelled, and numbers are given by their printed text.
- HashChain.TamperEvidence: one of the two logs has no pipe in event types, entity types and IP addresses; actorEmail, userAgent, organizationId and createdAt are not hashed by the code and so not covered.
- AuditAppend.InterleavedIsSerial: the row lock is exclusive, also on an empty table; the fallbacks without transactions are not modelled.
- AuditVerify.ScanPages: the log does not change while it is verified, because the offset advances by the page size.
- KeyRotation.IntactAcrossRotationsIff: IP texts do not start with "enc:" and are not the mask; base64 and the UTF-8 conversions are part of the cipher.
- IpAddress.DottedForm: Number() yields integers or NaN; texts such as "1e-1" that it reads as fractions are not modelled.
- PiiEncryption.Keys.Encrypt: a key text of 64 characters that are not all hexadecimal digits decodes to fewer bytes, and the cipher then throws; that is not modelled.
- Trust configuration, header selection and the normalization of addresses in server/clientIp.ts:140-256: finite case analysis.
- Certificate.AppendCertificate: that no text is wider than ten points a character is assumed of the fonts; positions are exact reals, not floating point; horizontal extents and glyphs are not modelled.
- Webhooks.RetriesAreBounded: due times are exact, while the column nextAttemptAt keeps whole seconds (drizzle/schema.ts:592), so that the stated distances hold up to a second; passes that overlap, and processes that die between an answer and its update, are not modelled.
- The placement of marks on rotated PDF pages, WORM storage and its integrity check, contacts, templates and dashboards.

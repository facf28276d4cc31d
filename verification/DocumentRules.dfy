/**
 What changes a document: for every step of every run, the exact cause of each change of its
 status, dates, routing, approvals and fields, what a sending leaves, and what each handler answers,
 said by the rules of SigningRules and not by the functions of the handlers.
 */
module DocumentRules {
  import opened Wrappers
  import opened Rows
  import opened Lifecycle
  import opened SigningRules

  // ----- sending -----

  /** How many of the recipients sign. */
  function Signers(rs: seq<Recipient>): nat { |set j | 0 <= j < |rs| && rs[j].isSigner| }

  lemma {:induction false} SignersCounted(rs: seq<Recipient>)
    ensures SignerCount(rs) == Signers(rs)
    decreases |rs|
  {
    if rs != [] {
      var n := |rs| - 1;
      SignersCounted(rs[..n]);
      CountLast(rs);
      var all, front := set j | 0 <= j < |rs| && rs[j].isSigner, set j | 0 <= j < n && rs[..n][j].isSigner;
      assert all == if rs[n].isSigner then front + {n} else front;
    }
  }

  lemma {:induction false} CountLast(rs: seq<Recipient>)
    requires rs != []
    ensures SignerCount(rs) == SignerCount(rs[..|rs| - 1]) + if rs[|rs| - 1].isSigner then 1 else 0
  {
    if |rs| > 1 {
      CountLast(rs[1..]);
      assert rs[1..][..|rs| - 2] == rs[..|rs| - 1][1..];
    }
  }

  /** A draft with a file, somebody who signs, and a field for every place of those who do. */
  predicate MaySend(s: State, p: Sending) {
    && s.doc.Some? && s.doc.value.status == Draft && s.doc.value.hasFile
    && (exists j | 0 <= j < |p.recipients| :: p.recipients[j].isSigner)
    && forall k | 0 <= k < Signers(p.recipients) :: FieldStandsAt(s.fields, k)
  }

  predicate FieldStandsAt(fields: seq<Field>, k: nat) { exists f | 0 <= f < |fields| :: fields[f].signerIndex == k }

  lemma SomeoneSignsIff(rs: seq<Recipient>)
    ensures SignerCount(rs) > 0 <==> exists j | 0 <= j < |rs| :: rs[j].isSigner
  {
    SignersCounted(rs);
    var all := set j | 0 <= j < |rs| && rs[j].isSigner;
    if j :| 0 <= j < |rs| && rs[j].isSigner { assert j in all; }
  }

  lemma FieldsForAllIff(fields: seq<Field>, n: nat)
    ensures EverySignerHasField(fields, n) <==> forall k | 0 <= k < n :: FieldStandsAt(fields, k)
  {
    assert forall k | 0 <= k < n :: HasFieldFor(fields, k) <==> FieldStandsAt(fields, k);
  }

  lemma SendAcceptedIff(s: State, p: Sending)
    ensures SendStep(s, p).1.Ok? <==> MaySend(s, p)
  {
    hide EverySignerHasField, FieldStandsAt, SignerCount, Signers, Released;
    SignersCounted(p.recipients);
    SomeoneSignsIff(p.recipients);
    FieldsForAllIff(s.fields, SignerCount(p.recipients));
  }

  predicate FirstAmong(rs: seq<Recipient>, j: nat)
    requires j < |rs|
  {
    rs[j].isSigner && forall k | 0 <= k < |rs| && k != j && rs[k].isSigner :: rs[j].order < rs[k].order || (rs[j].order == rs[k].order && j < k)
  }

  /** Without approvers, parallel routing notifies all, sequential routing the cc recipients and the first signer. */
  predicate NotifiedAtOnce(p: Sending, j: nat)
    requires j < |p.recipients|
  {
    p.approverOrders == [] && (!p.sequential || !p.recipients[j].isSigner || FirstAmong(p.recipients, j))
  }

  predicate RowSent(p: Sending, j: nat, r: Request)
    requires j < |p.recipients|
  {
    var to := p.recipients[j];
    && r.email == to.email && r.order == to.order && r.accessCode == to.accessCode
    && r.role == (if to.isSigner then SignerRole else CcRole)
    && r.status == (if NotifiedAtOnce(p, j) then Sent else Pending)
    && r.delegatedTo.None? && r.mark.None?
  }

  lemma FirstOfNewRows(rs: seq<Recipient>, j: nat)
    requires j < |rs|
    ensures FirstBy(NewRequests(rs), IsSigner) == Some(j) <==> FirstAmong(rs, j)
  {
    FirstIff(NewRequests(rs), j);
  }

  /** The rows after an accepted sending, one for each recipient; the approvals one for each approver, all pending. */
  lemma RowsAfterSending(s: State, p: Sending)
    requires MaySend(s, p)
    ensures var t := Next(s, Send(p));
            && |t.requests| == |p.recipients|
            && (forall j | 0 <= j < |p.recipients| :: RowSent(p, j, t.requests[j]))
            && (p.approverOrders == [] ==> t.approvals == s.approvals)
            && (p.approverOrders != [] ==>
                  && |t.approvals| == |p.approverOrders|
                  && forall k | 0 <= k < |p.approverOrders| :: t.approvals[k].order == p.approverOrders[k] && t.approvals[k].status == ApprovalPending)
            && t.fields == s.fields
            && t.doc == Some(s.doc.value.(status := if p.approverOrders == [] then DocSent else PendingInternalApproval,
                                          sequential := p.sequential, expiresAt := p.expiresAt))
  {
    SendAcceptedIff(s, p);
    var t := Next(s, Send(p));
    forall j | 0 <= j < |p.recipients| ensures RowSent(p, j, t.requests[j]) { FirstOfNewRows(p.recipients, j); }
  }

  // ----- the document -----

  predicate Rejects(s: State, step: Step) {
    && step.Decide? && step.decision == Reject && s.doc.Some? && s.doc.value.orgActive
    && step.k < |s.approvals| && s.approvals[step.k].status == ApprovalPending
  }

  predicate Approves(s: State, step: Step) {
    && step.Decide? && step.decision == Approve && s.doc.Some? && s.doc.value.orgActive
    && step.k < |s.approvals| && s.approvals[step.k].status == ApprovalPending
  }

  predicate Completes(s: State, step: Step) {
    && step.SignBy? && step.i < |s.requests| && MaySign(s, step.i, step.sub) && LastSignature(s.requests, step.i) && step.sub.pdfStored
  }

  predicate FailsToStore(s: State, step: Step) { step.SignBy? && step.i < |s.requests| && RollsBack(s, step, step.i) }

  /** The scheduler finds it due, or somebody who could sign otherwise tries to when it is over. */
  predicate Expires(s: State, step: Step) {
    && s.doc.Some? && s.doc.value.expiresAt.Some?
    && ((step.Expire? && s.doc.value.status == DocSent && s.doc.value.expiresAt.value <= step.now)
        || (&& step.SignBy? && step.i < |s.requests| && InProgress(s.doc.value) && s.doc.value.expiresAt.value < step.sub.now
            && s.requests[step.i].status != Signed && s.requests[step.i].status != Declined
            && s.requests[step.i].role != CcRole && s.requests[step.i].delegatedTo.None?))
  }

  predicate Voids(s: State, step: Step) {
    step.VoidDocument? && s.doc.Some? && (s.doc.value.status == DocSent || s.doc.value.status == DocDeclined)
  }

  predicate Edits(s: State, step: Step) { step.Edit? && s.doc.Some? && s.doc.value.status == Draft }

  predicate IsDeclined(s: State, step: Step) { step.DeclineBy? && Declines(s, step, step.i) }

  predicate Sends(s: State, step: Step) { step.Send? && MaySend(s, step.sending) }

  /** The document after a step, cause by cause. */
  ghost predicate DocumentAfter(s: State, step: Step, t: State)
    requires s.doc.Some? && !step.DeleteDocument?
  {
    var d := s.doc.value;
    t.doc.Some? &&
    var e := t.doc.value;
    && e.status == (if Sends(s, step) then (if step.sending.approverOrders == [] then DocSent else PendingInternalApproval)
                    else if Rejects(s, step) then Draft
                    else if LastApproval(s, step) || FailsToStore(s, step) then DocSent
                    else if Completes(s, step) then Completed
                    else if IsDeclined(s, step) then DocDeclined
                    else if Voids(s, step) then Voided
                    else if Expires(s, step) then DocExpired
                    else d.status)
    && e.sequential == (if Sends(s, step) then step.sending.sequential else if Edits(s, step) then step.sequential else d.sequential)
    && e.expiresAt == (if Sends(s, step) then step.sending.expiresAt else d.expiresAt)
    && e.hasFile == d.hasFile
    && e.orgActive == (if step.SetOrganization? then step.active else d.orgActive)
    && e.completedAt == (if Completes(s, step) then Some(step.sub.now) else if FailsToStore(s, step) then None else d.completedAt)
    && e.signedPdf == (if Completes(s, step) then Some(PdfEntries(t.requests, s.fields)) else d.signedPdf)
  }

  lemma SignDocument(s: State, i: nat, sub: Submission)
    requires s.doc.Some?
    ensures DocumentAfter(s, SignBy(i, sub), SignStep(s, i, sub).0)
    ensures SignStep(s, i, sub).0.approvals == s.approvals && SignStep(s, i, sub).0.fields == s.fields
  {
    hide PdfEntries, ImageRequired, AllSignersSigned, LastSignature, NotifyNext, MarkDue;
    AcceptedIff(s, i, sub);
    if i < |s.requests| { LastIsAllSigned(s.requests, i, sub.mark); }
  }

  lemma DecideDocument(s: State, k: nat, decision: Decision)
    requires s.doc.Some?
    ensures DocumentAfter(s, Decide(k, decision), DecideStep(s, k, decision).0)
  {
    hide PdfEntries, Released;
    if k < |s.approvals| {
      var decided := s.approvals[k := s.approvals[k].(status := Approved)];
      assert forall a | 0 <= a < |s.approvals| && a != k :: decided[a] == s.approvals[a];
    }
  }

  lemma OtherDocument(s: State, step: Step)
    requires s.doc.Some? && !step.DeleteDocument? && !step.SignBy? && !step.Decide? && !step.Send?
    ensures DocumentAfter(s, step, Next(s, step))
  {
    hide SignStep, DecideStep, SendStep, PdfEntries;
  }

  lemma SendDocument(s: State, p: Sending)
    requires s.doc.Some?
    ensures DocumentAfter(s, Send(p), SendStep(s, p).0)
  {
    hide PdfEntries, Released, SignerCount, EverySignerHasField, MaySend;
    SendAcceptedIff(s, p);
  }

  /**
   The status, routing, expiry, completion date and stored PDF of a document change for these
   causes and for no others; a document disappears only when it is deleted.
   */
  lemma DocumentChanges(s: State, step: Step)
    requires s.doc.Some?
    ensures Next(s, step).doc.None? <==> step.DeleteDocument?
    ensures !step.DeleteDocument? ==> DocumentAfter(s, step, Next(s, step))
  {
    hide SignStep, DecideStep, SendStep, DocumentAfter;
    if step.SignBy? { SignDocument(s, step.i, step.sub); }
    else if step.Decide? { DecideDocument(s, step.k, step.decision); }
    else if step.Send? { SendDocument(s, step.sending); }
    else if !step.DeleteDocument? { OtherDocument(s, step); }
    assert !step.DeleteDocument? ==> Next(s, step).doc.Some? by { StaysThere(s, step); }
  }

  lemma StaysThere(s: State, step: Step)
    requires s.doc.Some?
    ensures Next(s, step).doc.None? <==> step.DeleteDocument?
  {
    hide SignRefusal, PdfEntries, AllSignersSigned, AllApproved, EverySignerHasField, SignerCount;
  }

  /** Approvals change when they are decided and when a document is sent to approvers; fields when a draft is edited. */
  lemma ApprovalsAndFieldsChange(s: State, step: Step)
    requires s.doc.Some? && !step.DeleteDocument?
    ensures var t := Next(s, step);
            && t.fields == (if Edits(s, step) then step.fields else s.fields)
            && (!Sends(s, step) ==> |t.approvals| == |s.approvals|)
            && (!Sends(s, step) ==> forall k | 0 <= k < |s.approvals| ::
                  t.approvals[k] == if (Approves(s, step) || Rejects(s, step)) && step.k == k
                                    then s.approvals[k].(status := if step.decision == Approve then Approved else Rejected)
                                    else s.approvals[k])
  {
    hide SignRefusal, PdfEntries, AllSignersSigned, MaySend, SignerCount, EverySignerHasField;
    if step.Send? { SendAcceptedIff(s, step.sending); }
  }

  // ----- what the handlers answer -----

  predicate Here(s: State, i: nat) { s.doc.Some? && i < |s.requests| }

  predicate Answered(r: Request) { r.status == Signed || r.status == Declined }

  /** The request is unanswered and not a copy, and the document in progress. */
  predicate AsksForSignature(s: State, i: nat) {
    Here(s, i) && !Answered(s.requests[i]) && s.requests[i].role != CcRole && InProgress(s.doc.value)
  }

  predicate InTime(s: State, i: nat, now: int) {
    AsksForSignature(s, i) && s.requests[i].delegatedTo.None? && (s.doc.value.expiresAt.Some? ==> now <= s.doc.value.expiresAt.value)
  }

  /** Every answer of sign, with its cause. */
  lemma SignAnswers(s: State, i: nat, sub: Submission)
    ensures var o, timely := SignStep(s, i, sub).1, InTime(s, i, sub.now);
            && (o == Err(NotFound) <==> !Here(s, i))
            && (o == Err(AlreadySigned) <==> Here(s, i) && s.requests[i].status == Signed)
            && (o == Err(AlreadyDeclined) <==> Here(s, i) && s.requests[i].status == Declined)
            && (o == Err(CcCannotSign) <==> Here(s, i) && !Answered(s.requests[i]) && s.requests[i].role == CcRole)
            && (o == Err(NotOpen) <==> Here(s, i) && !Answered(s.requests[i]) && s.requests[i].role != CcRole && !InProgress(s.doc.value))
            && (o == Err(Delegated) <==> AsksForSignature(s, i) && s.requests[i].delegatedTo.Some?)
            && (o == Err(Expired) <==> AsksForSignature(s, i) && s.requests[i].delegatedTo.None? && !timely)
            && (o == Err(OrganizationDisabled) <==> timely && !s.doc.value.orgActive)
            && (o == Err(InvalidEmail) <==> timely && s.doc.value.orgActive && !sub.emailMatches)
            && (o == Err(DataRequired) <==> timely && s.doc.value.orgActive && sub.emailMatches && MarkDue(s, i) && sub.mark.None?)
            && (o == Err(PdfFailed) <==> FailsToStore(s, SignBy(i, sub)))
            && (o == Ok(true) <==> Completes(s, SignBy(i, sub)))
            && (o == Ok(false) <==> Submits(s, SignBy(i, sub), i) && !LastSignature(s.requests, i))
  {
    hide PdfEntries, ImageRequired, MarkDue, LastSignature, AllSignersSigned, NotifyNext;
    AcceptedIff(s, i, sub);
    if i < |s.requests| {
      ImageIsMarkDue(s, i);
      LastIsAllSigned(s.requests, i, sub.mark);
    }
  }

  /** Every answer of getByToken, decline and delegate. */
  lemma RecipientAnswers(s: State, i: nat, email: string)
    ensures var o := ViewStep(s, i).1;
            && (o == Err(NotFound) <==> !Here(s, i))
            && (o == Err(NotOpen) <==> Here(s, i) && !InProgress(s.doc.value) && s.doc.value.status != Completed)
            && (o == Err(OrganizationDisabled) <==>
                  Here(s, i) && (InProgress(s.doc.value) || s.doc.value.status == Completed) && !s.doc.value.orgActive)
            && (o.Ok? <==> Here(s, i) && (InProgress(s.doc.value) || s.doc.value.status == Completed) && s.doc.value.orgActive)
            && (o.Ok? ==> o.flag == !s.requests[i].accessCode)
    ensures var o := DeclineStep(s, i).1;
            && (o == Err(NotFound) <==> !Here(s, i))
            && (o == Err(AlreadySigned) <==> Here(s, i) && s.requests[i].status == Signed)
            && (o == Err(AlreadyDeclined) <==> Here(s, i) && s.requests[i].status == Declined)
            && (o == Err(NotOpen) <==> Here(s, i) && !Answered(s.requests[i]) && !InProgress(s.doc.value))
            && (o == Err(OrganizationDisabled) <==> Here(s, i) && !Answered(s.requests[i]) && InProgress(s.doc.value) && !s.doc.value.orgActive)
            && (o == Ok(true) <==> Declines(s, DeclineBy(i), i))
    ensures var o := DelegateStep(s, i, email).1;
            && (o == Err(NotFound) <==> !Here(s, i))
            && (o == Err(AlreadySigned) <==> Here(s, i) && s.requests[i].status == Signed)
            && (o == Err(Delegated) <==> Here(s, i) && s.requests[i].status != Signed && s.requests[i].delegatedTo.Some?)
            && (o == Err(NotOpen) <==>
                  Here(s, i) && s.requests[i].status != Signed && s.requests[i].delegatedTo.None? && !InProgress(s.doc.value))
            && (o == Err(OrganizationDisabled) <==>
                  && Here(s, i) && s.requests[i].status != Signed && s.requests[i].delegatedTo.None?
                  && InProgress(s.doc.value) && !s.doc.value.orgActive)
            && (o == Ok(true) <==> HandsOn(s, DelegateBy(i, email), i))
  {
  }

  /** Every answer of sending. */
  lemma SendAnswers(s: State, p: Sending)
    ensures var o, ready := SendStep(s, p).1, s.doc.Some? && s.doc.value.status == Draft && s.doc.value.hasFile;
            && (o == Err(NotFound) <==> s.doc.None?)
            && (o == Err(DraftOnly) <==> s.doc.Some? && s.doc.value.status != Draft)
            && (o == Err(PdfRequired) <==> s.doc.Some? && s.doc.value.status == Draft && !s.doc.value.hasFile)
            && (o == Err(SignerRequired) <==> ready && forall j | 0 <= j < |p.recipients| :: !p.recipients[j].isSigner)
            && (o == Err(SignerFieldRequired) <==>
                  ready && (exists j | 0 <= j < |p.recipients| :: p.recipients[j].isSigner) && !MaySend(s, p))
            && (o.Ok? <==> MaySend(s, p)) && (o.Ok? ==> o.flag == (p.approverOrders != []))
  {
    hide EverySignerHasField, FieldStandsAt, SignerCount, Signers, Released;
    SendAcceptedIff(s, p);
    SomeoneSignsIff(p.recipients);
  }

  /** Every answer of decide and of voiding. */
  lemma DecideAndVoidAnswers(s: State, k: nat, decision: Decision)
    ensures var o := DecideStep(s, k, decision).1;
            var pending := k < |s.approvals| && s.approvals[k].status == ApprovalPending;
            && (o == Err(AlreadyProcessed) <==>
                  k < |s.approvals| && s.approvals[k].status == (if decision == Approve then ApprovalStatus.Rejected else Approved))
            && (o == Err(NotFound) <==> k >= |s.approvals| || (pending && s.doc.None?))
            && (o == Err(OrganizationDisabled) <==> pending && s.doc.Some? && !s.doc.value.orgActive)
            && (o == Ok(true) <==> LastApproval(s, Decide(k, decision)))
            && (o.Err? ==> o.error == AlreadyProcessed || o.error == NotFound || o.error == OrganizationDisabled)
    ensures var o := VoidStep(s).1;
            && (o == Ok(true) <==> Voids(s, VoidDocument))
            && (o == Err(NotFound) <==> s.doc.None?) && (o == Err(VoidStatusInvalid) <==> s.doc.Some? && !Voids(s, VoidDocument))
  {
    if k < |s.approvals| {
      var decided := s.approvals[k := s.approvals[k].(status := Approved)];
      assert forall a | 0 <= a < |s.approvals| && a != k :: decided[a] == s.approvals[a];
    }
  }
}

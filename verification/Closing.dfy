/**
 What closes a document and what a refusal leaves behind: handlers that turn a request away change
 nothing, a document that was completed, declined, voided or expired stays closed, and the one
 way back is an approval decided late.
 */
module Closing {
  import opened Wrappers
  import opened Rows
  import opened Lifecycle
  import opened Completion

  /** What the caller of a handler is told; the scheduler and the organization's switch have no caller. */
  function Answer(s: State, step: Step): Outcome {
    match step
    case SignBy(i, sub) => SignStep(s, i, sub).1
    case ViewBy(i) => ViewStep(s, i).1
    case DeclineBy(i) => DeclineStep(s, i).1
    case DelegateBy(i, email) => DelegateStep(s, i, email).1
    case Send(sending) => SendStep(s, sending).1
    case Decide(k, decision) => DecideStep(s, k, decision).1
    case VoidDocument => VoidStep(s).1
    case DeleteDocument => DeleteStep(s).1
    case Edit(fields, sequential) => EditStep(s, fields, sequential).1
    case _ => Ok(true)
  }

  /** An error means that nothing happened, but for noticing the expiry and for a PDF that could not be stored. */
  lemma RefusalChangesNothing(s: State, step: Step)
    requires Answer(s, step).Err?
    ensures Answer(s, step).error != Expired && Answer(s, step).error != PdfFailed ==> Next(s, step) == s
    ensures Answer(s, step).error == Expired ==> s.doc.Some? && Next(s, step) == s.(doc := Some(s.doc.value.(status := DocExpired)))
    ensures Answer(s, step).error == PdfFailed ==> step.SignBy? && Next(s, step).doc.Some? && Next(s, step).doc.value.status == DocSent
  {
  }

  /** Rolling back a PDF failure restores the rows exactly for a document that was out and a request that was sent. */
  lemma FailureRestoresIff(s: State, i: nat, sub: Submission)
    requires SignStep(s, i, sub).1 == Err(PdfFailed)
    ensures s.doc.Some? && i < |s.requests|
    ensures SignStep(s, i, sub).0 == s
       <==> s.doc.value.status == DocSent && s.doc.value.completedAt.None? && s.requests[i].status == Sent && s.requests[i].mark.None?
  {
    var r := s.requests[i];
    var back := MarkSigned(s.requests, i, sub.mark)[i := r.(status := Sent, mark := None)];
    assert back[i] == r.(status := Sent, mark := None);
    if r.status == Sent && r.mark.None? {
      assert r.(status := Sent, mark := None) == r;
      assert back == s.requests;
    }
  }

  /** For instance, a request that had been opened comes back unopened. */
  lemma OpenedComesBackUnopened(email: string)
    ensures var r := Request(email, SignerRole, 1, Viewed, false, None, None);
            var s := State(Some(Document(DocSent, false, true, true, None, None, None)), [r], [], []);
            var (t, o) := SignStep(s, 0, Submission(0, true, Some("mark"), false));
            o == Err(PdfFailed) && t == s.(requests := [r.(status := Sent)])
  {
    var r := Request(email, SignerRole, 1, Viewed, false, None, None);
    var s := State(Some(Document(DocSent, false, true, true, None, None, None)), [r], [], []);
    var sub := Submission(0, true, Some("mark"), false);
    assert SignRefusal(s, 0, sub).None?;
    var marked := MarkSigned([r], 0, sub.mark);
    assert Active(marked[0]) && AllSignersSigned(marked);
    assert marked[0 := marked[0].(status := Sent, mark := None)] == [r.(status := Sent)];
  }

  predicate IsClosed(s: State) { s.doc.Some? && Closed(s.doc.value.status) }

  /** A request is at most opened. */
  predicate OnlyViewed(before: Request, after: Request) {
    after == before || (before.status == Sent && after == before.(status := Viewed))
  }

  /** A closed document leaves its closed state by those steps and by no others. */
  lemma LeavesClosedIff(s: State, step: Step)
    requires IsClosed(s)
    ensures !IsClosed(Next(s, step)) <==> Reopens(s, step)
  {
  }

  lemma ClosedStep(s: State, step: Step)
    requires IsClosed(s) && !Reopens(s, step)
    ensures var t := Next(s, step);
            && IsClosed(t) && t.fields == s.fields
            && (t.doc.value.status == s.doc.value.status || (s.doc.value.status == DocDeclined && t.doc.value.status == Voided))
            && |t.requests| == |s.requests|
            && forall i | 0 <= i < |s.requests| :: OnlyViewed(s.requests[i], t.requests[i])
  {
  }

  predicate NoReopening(s: State, steps: seq<Step>)
    decreases |steps|
  {
    steps == [] || (s.doc.Some? && !Reopens(s, steps[0]) && NoReopening(Next(s, steps[0]), steps[1..]))
  }

  /** Through any run without such a step a closed document stays closed: nobody signs, declines or delegates any more. */
  lemma {:induction false} ClosedStaysClosed(s: State, steps: seq<Step>)
    requires IsClosed(s) && NoReopening(s, steps)
    ensures var t := Run(s, steps);
            && IsClosed(t) && t.fields == s.fields
            && (t.doc.value.status == s.doc.value.status || (s.doc.value.status == DocDeclined && t.doc.value.status == Voided))
            && |t.requests| == |s.requests|
            && forall i | 0 <= i < |s.requests| :: OnlyViewed(s.requests[i], t.requests[i])
    decreases |steps|
  {
    if steps != [] {
      var t := Next(s, steps[0]);
      ClosedStep(s, steps[0]);
      ClosedStaysClosed(t, steps[1..]);
      assert forall i | 0 <= i < |s.requests| :: OnlyViewed(s.requests[i], t.requests[i]);
    }
  }

  /** So once a document is closed, no later submission is accepted. */
  lemma NothingSignedOnceClosed(s: State, steps: seq<Step>, i: nat, sub: Submission)
    requires IsClosed(s) && NoReopening(s, steps)
    ensures SignRefusal(Run(s, steps), i, sub).Some?
  {
    ClosedStaysClosed(s, steps);
  }

  /** A submission that is accepted and leaves every signer signed. */
  predicate Finishes(s: State, i: nat, sub: Submission) {
    i < |s.requests| && SignRefusal(s, i, sub).None? && AllSignersSigned(MarkSigned(s.requests, i, sub.mark))
  }

  /**
   All the ways to close a document that is out: voiding it, its expiry being due or noticed by a
   submission, a decline that is accepted, and a last signature whose PDF is stored.
   */
  lemma WaysToCloseIff(s: State, step: Step)
    requires s.doc.Some? && s.doc.value.status == DocSent
    ensures IsClosed(Next(s, step))
       <==> || step.VoidDocument?
            || (step.Expire? && Due(s.doc.value, step.now))
            || (step.SignBy? && SignRefusal(s, step.i, step.sub) == Some(Expired))
            || (step.DeclineBy? && DeclineStep(s, step.i).1.Ok?)
            || (step.SignBy? && Finishes(s, step.i, step.sub) && step.sub.pdfStored)
  {
  }

  /** Only a submission that leaves every signer signed, with its PDF stored, completes a document. */
  lemma OnlySigningCompletes(s: State, step: Step)
    requires s.doc.Some? && s.doc.value.status != Completed
    requires Next(s, step).doc.Some? && Next(s, step).doc.value.status == Completed
    ensures step.SignBy? && SignRefusal(s, step.i, step.sub).None? && step.sub.pdfStored
    ensures step.i < |s.requests| && AllSignersSigned(MarkSigned(s.requests, step.i, step.sub.mark))
  {
  }

  // ----- putting a document out -----

  predicate IsOut(s: State) { s.doc.Some? && s.doc.value.status == DocSent }

  /** An approval that decide accepts, after which all have approved. */
  predicate ApprovesLast(s: State, step: Step) {
    && step.Decide? && step.decision == Approve && s.doc.Some? && s.doc.value.orgActive
    && step.k < |s.approvals| && s.approvals[step.k].status == ApprovalPending
    && AllApproved(s.approvals[step.k := s.approvals[step.k].(status := Approved)])
  }

  /**
   All the ways to put a document out: sending it without approvers, the last approval, whatever
   the document's status, and a last signature whose PDF is not stored, on a draft or on a document
   that awaits approval.
   */
  lemma GoesOutIff(s: State, step: Step)
    requires s.doc.Some? && s.doc.value.status != DocSent
    ensures IsOut(Next(s, step))
       <==> || (step.Send? && SendStep(s, step.sending).1.Ok? && step.sending.approverOrders == [])
            || ApprovesLast(s, step)
            || (&& step.SignBy? && Finishes(s, step.i, step.sub) && !step.sub.pdfStored
                && (s.doc.value.status == Draft || s.doc.value.status == PendingInternalApproval))
  {
    hide PdfEntries;
  }

  ghost predicate OutUnapproved(run: seq<Step>) {
    var t := Run(NEW_DRAFT, run);
    IsOut(t) && |t.approvals| == 2 && forall k | 0 <= k < 2 :: t.approvals[k].status == ApprovalPending
  }

  lemma LoneSignerFails(s: State, r: Request, sub: Submission)
    requires s.doc.Some? && !Closed(s.doc.value.status) && s.doc.value.orgActive && s.doc.value.expiresAt.None?
    requires s.requests == [r] && Active(r) && r.status == Pending && sub == SUBMITTED.(pdfStored := false)
    ensures IsOut(Next(s, SignBy(0, sub))) && Next(s, SignBy(0, sub)).approvals == s.approvals
  {
    var marked := MarkSigned(s.requests, 0, sub.mark);
    assert Active(marked[0]) && AllSignersSigned(marked);
    assert SignRefusal(s, 0, sub).None?;
  }

  /** For instance, a signature given while two approvals are awaited, whose PDF is not stored, puts the document out. */
  lemma FailureBypassesApproval(email: string)
    ensures exists run: seq<Step> :: OutUnapproved(run)
  {
    SentForApproval(email);
    var to := [Recipient(email, true, 1, false)];
    var send, sign := Send(Sending(to, false, None, [1, 2])), SignBy(0, SUBMITTED.(pdfStored := false));
    var s1 := Next(NEW_DRAFT, send);
    LoneSignerFails(s1, NewRequest(to[0]), SUBMITTED.(pdfStored := false));
    RunAppend(NEW_DRAFT, [], send);
    RunAppend(NEW_DRAFT, [] + [send], sign);
    assert OutUnapproved([] + [send] + [sign]);
  }

  // ----- completing a document that is not out -----

  /**
   A step completes a document that was not out exactly if it is a last signature, accepted and
   stored, on a draft or a document awaiting approval: sign turns away closed documents only.
   */
  lemma CompletesWhenOutIff(s: State, step: Step)
    requires s.doc.Some? && s.doc.value.status != Completed
    ensures IsCompleted(Next(s, step)) && s.doc.value.status != DocSent
       <==> && step.SignBy? && Finishes(s, step.i, step.sub) && step.sub.pdfStored
            && (s.doc.value.status == Draft || s.doc.value.status == PendingInternalApproval)
  {
  }

  lemma LoneSignerFinishes(s: State, r: Request)
    requires s.doc.Some? && !Closed(s.doc.value.status) && s.doc.value.orgActive && s.doc.value.expiresAt.None?
    requires s.requests == [r] && Active(r) && r.status == Pending
    ensures IsCompleted(Next(s, SignBy(0, SUBMITTED)))
  {
    var marked := MarkSigned(s.requests, 0, SUBMITTED.mark);
    assert Active(marked[0]) && AllSignersSigned(marked);
    assert SignRefusal(s, 0, SUBMITTED).None?;
  }

  /** A draft is sent to two approvers, and the first rejects. */
  lemma SentForApproval(email: string)
    ensures var to := [Recipient(email, true, 1, false)];
            var s := Next(NEW_DRAFT, Send(Sending(to, false, None, [1, 2])));
            && s == State(Some(NEW_DRAFT.doc.value.(status := PendingInternalApproval)), [NewRequest(to[0])],
                          [Approval(1, ApprovalPending), Approval(2, ApprovalPending)], NEW_DRAFT.fields)
            && Next(s, Decide(0, Reject)) == s.(doc := NEW_DRAFT.doc, approvals := [Approval(1, Rejected), Approval(2, ApprovalPending)])
  {
    var to := [Recipient(email, true, 1, false)];
    assert SignerCount(to) == 1 by { assert to[1..] == []; }
    assert HasFieldFor(NEW_DRAFT.fields, 0) by { assert NEW_DRAFT.fields[0].signerIndex == 0; }
    var s := Next(NEW_DRAFT, Send(Sending(to, false, None, [1, 2])));
    assert s.requests == [NewRequest(to[0])] && s.approvals == [Approval(1, ApprovalPending), Approval(2, ApprovalPending)];
    assert s.approvals[0 := Approval(1, Rejected)] == [Approval(1, Rejected), Approval(2, ApprovalPending)];
  }

  ghost predicate CompletableAfter(run: seq<Step>, status: DocStatus) {
    var t := Run(NEW_DRAFT, run);
    t.doc.Some? && t.doc.value.status == status && IsCompleted(Next(t, SignBy(0, SUBMITTED)))
  }

  /** Both happen: a document is signed to completion before its approval, and after its rejection. */
  lemma SignedBeforeApproval(email: string)
    ensures Fresh(NEW_DRAFT)
    ensures exists run: seq<Step> :: CompletableAfter(run, PendingInternalApproval)
    ensures exists run: seq<Step> :: CompletableAfter(run, Draft)
  {
    SentForApproval(email);
    var to := [Recipient(email, true, 1, false)];
    var send := Send(Sending(to, false, None, [1, 2]));
    var s1 := Next(NEW_DRAFT, send);
    var s2 := Next(s1, Decide(0, Reject));
    LoneSignerFinishes(s1, NewRequest(to[0]));
    LoneSignerFinishes(s2, NewRequest(to[0]));
    RunAppend(NEW_DRAFT, [], send);
    RunAppend(NEW_DRAFT, [] + [send], Decide(0, Reject));
    assert CompletableAfter([] + [send], PendingInternalApproval);
    assert CompletableAfter([] + [send] + [Decide(0, Reject)], Draft);
  }
}

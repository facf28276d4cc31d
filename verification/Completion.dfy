/**
 A completed document is a signed one: in every run of the handlers, whatever order they come
 in, "completed" means that at least one signer counts, all of them have signed, and the stored
 PDF holds exactly the marks of the current signers.
 */
module Completion {
  import opened Wrappers
  import opened Rows
  import opened Lifecycle

  predicate IsCompleted(s: State) { s.doc.Some? && s.doc.value.status == Completed }

  predicate Sound(s: State) {
    IsCompleted(s) ==>
      && AllSignersSigned(s.requests)
      && s.doc.value.signedPdf == Some(PdfEntries(s.requests, s.fields))
  }

  /** Rows that agree on who counts, in what order, and with what mark give the same PDF. */
  predicate SameSignatures(a: seq<Request>, b: seq<Request>) {
    && |a| == |b|
    && forall i | 0 <= i < |a| ::
         && Active(a[i]) == Active(b[i])
         && a[i].order == b[i].order
         && (Active(a[i]) ==> a[i].email == b[i].email && a[i].mark == b[i].mark)
  }

  lemma SameSlots(a: seq<Request>, b: seq<Request>)
    requires |a| == |b|
    requires forall i | 0 <= i < |a| :: Active(a[i]) == Active(b[i]) && a[i].order == b[i].order
    ensures ActiveSlots(a) == ActiveSlots(b)
  {
    var sa, sb := ActiveSlots(a), ActiveSlots(b);
    assert SortedBy(a, sb) by {
      forall x, y | 0 <= x < y < |sb|
        ensures Before(a, sb[x], sb[y])
      {
        assert Before(b, sb[x], sb[y]);
      }
    }
    OrderedUnique(a, sa, sb);
  }

  lemma {:induction false} SameEntriesFrom(a: seq<Request>, b: seq<Request>, fields: seq<Field>, slots: seq<nat>, k: nat)
    requires SameSignatures(a, b) && k <= |slots|
    requires forall x | 0 <= x < |slots| :: slots[x] < |a| && Active(a[slots[x]])
    ensures PdfEntriesFrom(a, fields, slots, k) == PdfEntriesFrom(b, fields, slots, k)
    decreases |slots| - k
  {
    if k < |slots| {
      SameEntriesFrom(a, b, fields, slots, k + 1);
    }
  }

  lemma SameEntries(a: seq<Request>, b: seq<Request>, fields: seq<Field>)
    requires SameSignatures(a, b)
    ensures PdfEntries(a, fields) == PdfEntries(b, fields)
  {
    SameSlots(a, b);
    var slots := ActiveSlots(a);
    assert forall x | 0 <= x < |slots| :: slots[x] in slots;
    SameEntriesFrom(a, b, fields, slots, 0);
  }

  lemma SignKeepsSound(s: State, i: nat, sub: Submission)
    requires Sound(s)
    ensures Sound(SignStep(s, i, sub).0)
  {
  }

  lemma ViewKeepsSound(s: State, i: nat)
    requires Sound(s)
    ensures Sound(ViewStep(s, i).0)
  {
    hide PdfEntries, ActiveSlots;
    var t := ViewStep(s, i).0;
    if IsCompleted(s) {
      assert SameSignatures(s.requests, t.requests);
      SameEntries(s.requests, t.requests, s.fields);
      var w :| 0 <= w < |s.requests| && Active(s.requests[w]);
      assert Active(t.requests[w]);
    }
  }

  lemma StepKeepsSound(s: State, step: Step)
    requires Sound(s)
    ensures Sound(Next(s, step))
  {
    match step
    case SignBy(i, sub) => SignKeepsSound(s, i, sub);
    case ViewBy(i) => ViewKeepsSound(s, i);
    case _ =>
  }

  /** Every run from a sound state ends in one. */
  lemma {:induction false} RunKeepsSound(s: State, steps: seq<Step>)
    requires Sound(s)
    ensures Sound(Run(s, steps))
    decreases |steps|
  {
    if steps != [] {
      StepKeepsSound(s, steps[0]);
      RunKeepsSound(Next(s, steps[0]), steps[1..]);
    }
  }

  /** There is a signer who has not handed on, and each of them has signed. */
  predicate SignedByAll(rows: seq<Request>) {
    && (exists i | 0 <= i < |rows| :: rows[i].role == SignerRole && rows[i].delegatedTo.None?)
    && forall i | 0 <= i < |rows| && rows[i].role == SignerRole && rows[i].delegatedTo.None? :: rows[i].status == Signed
  }

  lemma SignedByAllIff(rows: seq<Request>)
    ensures AllSignersSigned(rows) <==> SignedByAll(rows)
  {
    assert forall i | 0 <= i < |rows| :: Active(rows[i]) <==> rows[i].role == SignerRole && rows[i].delegatedTo.None?;
  }

  /** Completion is sound in every state reachable from a new draft. */
  lemma CompletedMeansSigned(s: State, steps: seq<Step>)
    requires Fresh(s) && IsCompleted(Run(s, steps))
    ensures SignedByAll(Run(s, steps).requests)
    ensures Run(s, steps).doc.value.signedPdf == Some(PdfEntries(Run(s, steps).requests, Run(s, steps).fields))
  {
    RunKeepsSound(s, steps);
    SignedByAllIff(Run(s, steps).requests);
  }

  /** The steps that take a finished document back: deleting it, or rejecting a pending approval or giving the last one. */
  predicate Reopens(s: State, step: Step)
    requires s.doc.Some?
  {
    || step.DeleteDocument?
    || (&& step.Decide? && step.k < |s.approvals| && s.approvals[step.k].status == ApprovalPending
        && s.doc.value.orgActive
        && (step.decision == Reject || AllApproved(s.approvals[step.k := s.approvals[step.k].(status := Approved)])))
  }

  /** A completed document stays completed, with its signers signed, exactly under all other steps. */
  lemma CompletedIsFinalUnlessReopened(s: State, step: Step)
    requires IsCompleted(s)
    ensures IsCompleted(Next(s, step)) <==> !Reopens(s, step)
    ensures !Reopens(s, step) ==>
              forall i | 0 <= i < |s.requests| && Active(s.requests[i]) && s.requests[i].status == Signed ::
                i < |Next(s, step).requests| && Next(s, step).requests[i] == s.requests[i]
  {
  }

  const SUBMITTED: Submission := Submission(0, true, Some("mark"), true)

  const NEW_DRAFT: State :=
    State(Some(Document(Draft, false, true, true, None, None, None)), [], [], [Field("f", 0, DateField)])

  /** A draft goes to two approvers, the first rejects it, and it goes out again without approval. */
  lemma LeftoverApproval(email: string)
    ensures Fresh(NEW_DRAFT)
    ensures var to := [Recipient(email, true, 1, false)];
            var s := Next(Next(Next(NEW_DRAFT, Send(Sending(to, false, None, [1, 2]))), Decide(0, Reject)),
                          Send(Sending(to, false, None, [])));
            s == State(Some(NEW_DRAFT.doc.value.(status := DocSent)), [NewRequest(to[0]).(status := Sent)],
                       [Approval(1, Rejected), Approval(2, ApprovalPending)], NEW_DRAFT.fields)
  {
    var to := [Recipient(email, true, 1, false)];
    assert SignerCount(to) == 1 by { assert to[1..] == []; }
    assert NEW_DRAFT.fields[0].signerIndex == 0;
    assert HasFieldFor(NEW_DRAFT.fields, 0);
    var s1 := Next(NEW_DRAFT, Send(Sending(to, false, None, [1, 2])));
    assert s1.approvals == [Approval(1, ApprovalPending), Approval(2, ApprovalPending)];
    assert s1.requests == [NewRequest(to[0])];
    var s2 := Next(s1, Decide(0, Reject));
    assert s2 == State(Some(NEW_DRAFT.doc.value), s1.requests, [Approval(1, Rejected), Approval(2, ApprovalPending)], NEW_DRAFT.fields);
    var s3 := Next(s2, Send(Sending(to, false, None, [])));
    assert s3.requests == [NewRequest(to[0]).(status := Sent)];
  }

  /** A notified signer of a sent document who hands in a mark is not turned away. */
  lemma WelcomeSigner(s: State, i: nat, sub: Submission)
    requires s.doc.Some? && s.doc.value.status == DocSent && s.doc.value.orgActive && s.doc.value.expiresAt.None?
    requires i < |s.requests| && Active(s.requests[i]) && HasTurn(s.requests[i])
    requires sub.emailMatches && sub.mark.Some?
    ensures SignRefusal(s, i, sub).None?
  {
  }

  lemma LastSignerCompletes(s: State, i: nat, sub: Submission)
    requires s.doc.Some? && i < |s.requests| && SignRefusal(s, i, sub).None?
    requires AllSignersSigned(MarkSigned(s.requests, i, sub.mark)) && sub.pdfStored
    ensures var t := Next(s, SignBy(i, sub));
            IsCompleted(t) && t.approvals == s.approvals && t.doc.value.orgActive
  {
  }

  lemma RejectionReopens(s: State)
    requires IsCompleted(s) && s.doc.value.orgActive
    requires |s.approvals| == 2 && s.approvals[1].status == ApprovalPending
    ensures Next(s, Decide(1, Reject)).doc.value.status == Draft
  {
  }

  /**
   Such a reopening is reachable: an approver left over from an earlier, rejected round rejects
   after the document went out again without approval and was completed.
   */
  lemma LateRejectionReopens(email: string)
    ensures exists run: seq<Step> ::
              && IsCompleted(Run(NEW_DRAFT, run))
              && Next(Run(NEW_DRAFT, run), Decide(1, Reject)).doc.value.status == Draft
  {
    var to := [Recipient(email, true, 1, false)];
    var send1, send2 := Send(Sending(to, false, None, [1, 2])), Send(Sending(to, false, None, []));
    LeftoverApproval(email);
    var s3 := Next(Next(Next(NEW_DRAFT, send1), Decide(0, Reject)), send2);
    var sign := SignBy(0, SUBMITTED);
    WelcomeSigner(s3, 0, SUBMITTED);
    assert Active(MarkSigned(s3.requests, 0, Some("mark"))[0]);
    LastSignerCompletes(s3, 0, SUBMITTED);
    RunFour(NEW_DRAFT, send1, Decide(0, Reject), send2, sign);
    RejectionReopensRun(NEW_DRAFT, [send1, Decide(0, Reject), send2, sign], Next(s3, sign));
  }

  lemma RejectionReopensRun(s: State, run: seq<Step>, t: State)
    requires t == Run(s, run)
    requires IsCompleted(t) && t.doc.value.orgActive && |t.approvals| == 2 && t.approvals[1].status == ApprovalPending
    ensures exists run: seq<Step> ::
              && IsCompleted(Run(s, run))
              && Next(Run(s, run), Decide(1, Reject)).doc.value.status == Draft
  {
    RejectionReopens(t);
  }

  lemma RunFour(s: State, a: Step, b: Step, c: Step, d: Step)
    ensures Run(s, [a, b, c, d]) == Next(Next(Next(Next(s, a), b), c), d)
  {
    assert [a, b, c, d][1..] == [b, c, d] && [b, c, d][1..] == [c, d] && [c, d][1..] == [d] && [d][1..] == [];
    assert Run(s, [a, b, c, d]) == Run(Next(s, a), [b, c, d]);
    assert Run(Next(s, a), [b, c, d]) == Run(Next(Next(s, a), b), [c, d]);
    assert Run(Next(Next(s, a), b), [c, d]) == Run(Next(Next(Next(s, a), b), c), [d]);
  }
}

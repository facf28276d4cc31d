/**
 Who may sign, and what changes a request: for every step of every run, exactly when a request
 becomes signed, sent, viewed, declined or delegated, said by roles, addresses, dates and fields
 and not by the functions of the handlers.
 */
module SigningRules {
  import opened Wrappers
  import opened Rows
  import opened Lifecycle
  import DelegationSlots

  // ----- the vocabulary of the rules -----

  /** A signer who has not handed the request on. */
  predicate Counts(r: Request) { r.role == SignerRole && r.delegatedTo.None? }

  /** Row j was placed before row i: by its order, or for equal orders by its id. */
  predicate Earlier(rows: seq<Request>, j: nat, i: nat)
    requires j < |rows| && i < |rows|
  {
    rows[j].order < rows[i].order || (rows[j].order == rows[i].order && j < i)
  }

  /** The place of a signer's row: how many signers' rows come before it. */
  function Place(rows: seq<Request>, i: nat): nat
    requires i < |rows|
  {
    |set j | 0 <= j < |rows| && rows[j].role == SignerRole && Earlier(rows, j, i)|
  }

  /** A signature or stamp field stands at the signer's place, or for a row that is no signer's anywhere. */
  predicate MarkDue(s: State, i: nat)
    requires i < |s.requests|
  {
    exists f | 0 <= f < |s.fields| ::
      && (s.fields[f].kind == SignatureField || s.fields[f].kind == StampField)
      && (s.requests[i].role == SignerRole ==> s.fields[f].signerIndex == Place(s.requests, i))
  }

  /** The document can still be worked on: it is a draft, awaits approval or is out. */
  predicate InProgress(d: Document) { d.status == Draft || d.status == PendingInternalApproval || d.status == DocSent }

  /** All that a submission must satisfy. */
  predicate MaySign(s: State, i: nat, sub: Submission) {
    && s.doc.Some? && i < |s.requests|
    && InProgress(s.doc.value) && s.doc.value.orgActive && (s.doc.value.expiresAt.Some? ==> sub.now <= s.doc.value.expiresAt.value)
    && s.requests[i].role != CcRole && s.requests[i].delegatedTo.None?
    && s.requests[i].status != Signed && s.requests[i].status != Declined
    && sub.emailMatches && (MarkDue(s, i) ==> sub.mark.Some?)
  }

  /** With row i signed, all signers that count have signed. */
  predicate LastSignature(rows: seq<Request>, i: nat)
    requires i < |rows|
  {
    && (exists j | 0 <= j < |rows| :: Counts(rows[j]))
    && forall j | 0 <= j < |rows| && j != i && Counts(rows[j]) :: rows[j].status == Signed
  }

  /** Row j comes first of those that count and have not been past their notice, row i left aside. */
  predicate NextToNotify(rows: seq<Request>, i: nat, j: nat)
    requires i < |rows| && j < |rows|
  {
    && j != i && Counts(rows[j]) && rows[j].status == Pending
    && forall k | 0 <= k < |rows| && k != i && k != j && Counts(rows[k]) && (rows[k].status == Pending || rows[k].status == Sent) ::
         Earlier(rows, j, k)
  }

  predicate FirstSigner(rows: seq<Request>, j: nat)
    requires j < |rows|
  {
    rows[j].role == SignerRole && forall k | 0 <= k < |rows| && k != j && rows[k].role == SignerRole :: Earlier(rows, j, k)
  }

  // ----- the handlers meet the rules -----

  lemma PlaceIsIndex(rows: seq<Request>, i: nat)
    requires i < |rows|
    ensures SignerIndex(rows, i) == if rows[i].role == SignerRole then Place(rows, i) else -1
  {
    if rows[i].role == SignerRole {
      DelegationSlots.PlaceCountsPredecessors(rows, i, IsSigner);
      assert DelegationSlots.BeforeSet(rows, i, IsSigner)
          == set j | 0 <= j < |rows| && rows[j].role == SignerRole && Earlier(rows, j, i);
    }
  }

  lemma ImageIsMarkDue(s: State, i: nat)
    requires i < |s.requests|
    ensures ImageRequired(s, i) <==> MarkDue(s, i)
  {
    PlaceIsIndex(s.requests, i);
  }

  /** A submission is refused exactly when it may not sign; an address that does not match never signs. */
  lemma AcceptedIff(s: State, i: nat, sub: Submission)
    ensures SignRefusal(s, i, sub).None? <==> MaySign(s, i, sub)
  {
    if i < |s.requests| { ImageIsMarkDue(s, i); }
  }

  lemma LastIsAllSigned(rows: seq<Request>, i: nat, mark: Option<string>)
    requires i < |rows|
    ensures AllSignersSigned(MarkSigned(rows, i, mark)) <==> LastSignature(rows, i)
  {
    var marked := MarkSigned(rows, i, mark);
    assert forall j | 0 <= j < |rows| :: Active(marked[j]) == Counts(rows[j]) && (j != i ==> marked[j] == rows[j]);
    if AllSignersSigned(marked) {
      var w :| 0 <= w < |marked| && Active(marked[w]);
      assert Counts(rows[w]);
    }
    if LastSignature(rows, i) {
      var w :| 0 <= w < |rows| && Counts(rows[w]);
      assert Active(marked[w]);
    }
  }

  /** Who is notified after a signature. */
  lemma NoticeIff(rows: seq<Request>, i: nat, mark: Option<string>, j: nat)
    requires i < |rows| && j < |rows|
    ensures var marked := MarkSigned(rows, i, mark);
            NotifyNext(marked)[j] == if NextToNotify(rows, i, j) then marked[j].(status := Sent) else marked[j]
  {
    var marked := MarkSigned(rows, i, mark);
    var next := NextPendingSigner(marked);
    assert forall k | 0 <= k < |rows| :: AwaitsNotice(marked[k]) <==> k != i && Counts(rows[k]) && (rows[k].status == Pending || rows[k].status == Sent);
    assert forall k | 0 <= k < |rows| && k != i :: marked[k] == rows[k];
    if NextToNotify(rows, i, j) {
      assert AwaitsNotice(marked[j]);
      assert forall k | 0 <= k < |rows| && k != j && AwaitsNotice(marked[k]) :: Earlier(rows, j, k) && !Before(marked, k, j);
    } else if next == Some(j) && marked[j].status == Pending {
      forall k | 0 <= k < |rows| && k != i && k != j && Counts(rows[k]) && (rows[k].status == Pending || rows[k].status == Sent)
        ensures Earlier(rows, j, k)
      {
        assert AwaitsNotice(marked[k]);
        assert Before(marked, j, k);
      }
      assert NextToNotify(rows, i, j);
    }
  }

  lemma FirstIff(rows: seq<Request>, j: nat)
    requires j < |rows|
    ensures FirstBy(rows, IsSigner) == Some(j) <==> FirstSigner(rows, j)
  {
    var f := FirstBy(rows, IsSigner);
    if f == Some(j) {
      forall k | 0 <= k < |rows| && k != j && rows[k].role == SignerRole ensures Earlier(rows, j, k) {
        assert IsSigner(rows[k]);
        assert Before(rows, j, k);
      }
    }
    if FirstSigner(rows, j) {
      assert IsSigner(rows[j]);
      assert forall k | 0 <= k < |rows| && k != j && IsSigner(rows[k]) :: Earlier(rows, j, k) && !Before(rows, k, j);
    }
  }

  // ----- causes -----

  /** The submission of step is accepted for row i. */
  predicate Submits(s: State, step: Step, i: nat) { step.SignBy? && step.i == i && MaySign(s, i, step.sub) }

  /** It leaves all signed, and its PDF could not be stored. */
  predicate RollsBack(s: State, step: Step, i: nat) {
    Submits(s, step, i) && LastSignature(s.requests, i) && !step.sub.pdfStored
  }

  /** It is not the last one of a document with sequential routing, and row j comes next. */
  predicate Notifies(s: State, step: Step, j: nat)
    requires j < |s.requests|
  {
    && step.SignBy? && step.i < |s.requests| && MaySign(s, step.i, step.sub) && s.doc.value.sequential
    && !LastSignature(s.requests, step.i) && NextToNotify(s.requests, step.i, j)
  }

  /** The last approval of a document that is not out, which notifies all, or the first signer and the cc recipients. */
  predicate Releases(s: State, step: Step, j: nat)
    requires j < |s.requests|
  {
    && LastApproval(s, step) && s.doc.value.status != DocSent
    && (!s.doc.value.sequential || s.requests[j].role == CcRole || FirstSigner(s.requests, j))
  }

  predicate LastApproval(s: State, step: Step) {
    && step.Decide? && step.decision == Approve && s.doc.Some? && s.doc.value.orgActive
    && step.k < |s.approvals| && s.approvals[step.k].status == ApprovalPending
    && forall j | 0 <= j < |s.approvals| && j != step.k :: s.approvals[j].status == Approved
  }

  predicate Opens(s: State, step: Step, i: nat) {
    && step.ViewBy? && step.i == i && s.doc.Some? && i < |s.requests| && s.doc.value.orgActive
    && (InProgress(s.doc.value) || s.doc.value.status == Completed)
    && s.requests[i].role == SignerRole && s.requests[i].status == Sent && !s.requests[i].accessCode
  }

  predicate Declines(s: State, step: Step, i: nat) {
    && step.DeclineBy? && step.i == i && s.doc.Some? && i < |s.requests| && InProgress(s.doc.value) && s.doc.value.orgActive
    && s.requests[i].status != Signed && s.requests[i].status != Declined
  }

  /** A delegation needs an unsigned request that was not handed on; the role does not matter. */
  predicate HandsOn(s: State, step: Step, i: nat) {
    && step.DelegateBy? && step.i == i && s.doc.Some? && i < |s.requests| && InProgress(s.doc.value) && s.doc.value.orgActive
    && s.requests[i].status != Signed && s.requests[i].delegatedTo.None?
  }

  /** Sending and deleting replace the rows; all other steps keep them. */
  predicate Replaces(step: Step) { step.Send? || step.DeleteDocument? }

  // ----- what each handler does to row j -----

  lemma SignChanges(s: State, i: nat, sub: Submission, j: nat)
    requires j < |s.requests|
    ensures var t, step := SignStep(s, i, sub).0, SignBy(i, sub);
            && |t.requests| == |s.requests|
            && t.requests[j] == if RollsBack(s, step, j) then s.requests[j].(status := Sent, mark := None)
                                else if Submits(s, step, j) then s.requests[j].(status := Signed, mark := sub.mark)
                                else if Notifies(s, step, j) then s.requests[j].(status := Sent)
                                else s.requests[j]
  {
    hide PdfEntries, SignRefusal, AllSignersSigned, NextToNotify, LastSignature, MarkSigned, NotifyNext, MaySign;
    AcceptedIff(s, i, sub);
    if i < |s.requests| {
      MarkedAt(s.requests, i, sub.mark, j);
      LastIsAllSigned(s.requests, i, sub.mark);
      NoticeIff(s.requests, i, sub.mark, j);
      NotSelf(s.requests, i);
      RefusedOutside(s, i, sub);
    } else {
      RefusedOutside(s, i, sub);
    }
  }

  lemma MarkedAt(rows: seq<Request>, i: nat, mark: Option<string>, j: nat)
    requires i < |rows| && j < |rows|
    ensures |MarkSigned(rows, i, mark)| == |NotifyNext(MarkSigned(rows, i, mark))| == |rows|
    ensures MarkSigned(rows, i, mark)[j] == if j == i then rows[j].(status := Signed, mark := mark) else rows[j]
  {
  }

  lemma NotSelf(rows: seq<Request>, i: nat)
    requires i < |rows|
    ensures !NextToNotify(rows, i, i)
  {
  }

  lemma RefusedOutside(s: State, i: nat, sub: Submission)
    ensures s.doc.None? || i >= |s.requests| ==> SignRefusal(s, i, sub) == Some(NotFound) && !MaySign(s, i, sub)
  {
  }

  lemma DecideChanges(s: State, k: nat, decision: Decision, j: nat)
    requires j < |s.requests|
    ensures var t := DecideStep(s, k, decision).0;
            && |t.requests| == |s.requests|
            && t.requests[j] == if Releases(s, Decide(k, decision), j) then s.requests[j].(status := Sent) else s.requests[j]
  {
    FirstIff(s.requests, j);
    if k < |s.approvals| {
      var decided := s.approvals[k := s.approvals[k].(status := Approved)];
      assert forall a | 0 <= a < |s.approvals| && a != k :: decided[a] == s.approvals[a];
    }
  }

  lemma OthersChange(s: State, step: Step, j: nat)
    requires j < |s.requests| && !Replaces(step) && !step.SignBy? && !step.Decide?
    ensures var t := Next(s, step);
            && |t.requests| >= |s.requests|
            && t.requests[j] == if Opens(s, step, j) then s.requests[j].(status := Viewed)
                                else if Declines(s, step, j) then s.requests[j].(status := Declined)
                                else if HandsOn(s, step, j) then s.requests[j].(delegatedTo := Some(step.email))
                                else s.requests[j]
  {
    hide SignStep, DecideStep, SendStep;
  }

  // ----- the rules, change by change -----

  predicate Kept(s: State, step: Step, i: nat) { i < |s.requests| && !Replaces(step) }

  lemma RowChanges(s: State, step: Step, j: nat)
    requires Kept(s, step, j)
    ensures var t := Next(s, step);
            && j < |t.requests|
            && t.requests[j] == if RollsBack(s, step, j) then s.requests[j].(status := Sent, mark := None)
                                else if Submits(s, step, j) then s.requests[j].(status := Signed, mark := step.sub.mark)
                                else if Notifies(s, step, j) || Releases(s, step, j) then s.requests[j].(status := Sent)
                                else if Opens(s, step, j) then s.requests[j].(status := Viewed)
                                else if Declines(s, step, j) then s.requests[j].(status := Declined)
                                else if HandsOn(s, step, j) then s.requests[j].(delegatedTo := Some(step.email))
                                else s.requests[j]
  {
    hide SignStep, DecideStep, SendStep, MaySign, LastSignature, NextToNotify, FirstSigner;
    if step.SignBy? { SignChanges(s, step.i, step.sub, j); }
    if step.Decide? { DecideChanges(s, step.k, step.decision, j); }
    if !step.SignBy? && !step.Decide? { OthersChange(s, step, j); }
  }

  /**
   A request becomes signed exactly by its own submission: from an address that matches, with the
   marks that are due, by somebody who is no cc recipient and has neither handed on nor declined,
   in an active organization, on a document in progress and not expired; and, if it is the last,
   with its PDF stored. The mark is the one handed in.
   */
  lemma BecomesSignedIff(s: State, step: Step, i: nat)
    requires Kept(s, step, i) && s.requests[i].status != Signed
    ensures var r := Next(s, step).requests;
            && i < |r|
            && (r[i].status == Signed <==> Submits(s, step, i) && (step.sub.pdfStored || !LastSignature(s.requests, i)))
            && (r[i].status == Signed ==> r[i].mark == step.sub.mark)
  {
    hide Next, MaySign, LastSignature, NextToNotify, FirstSigner;
    RowChanges(s, step, i);
  }

  /** A request becomes sent when its PDF fails, as the next in line, or on release, and in no other way. */
  lemma BecomesSentIff(s: State, step: Step, i: nat)
    requires Kept(s, step, i) && s.requests[i].status != Sent
    ensures var r := Next(s, step).requests;
            && i < |r|
            && (r[i].status == Sent <==> RollsBack(s, step, i) || Notifies(s, step, i) || Releases(s, step, i))
  {
    hide Next, MaySign, LastSignature, NextToNotify, FirstSigner;
    NotSelf(s.requests, i);
    RowChanges(s, step, i);
  }

  /** A request becomes viewed or declined by its own recipient only, and its status changes in no further way. */
  lemma OtherStatusesIff(s: State, step: Step, i: nat)
    requires Kept(s, step, i)
    ensures i < |Next(s, step).requests|
    ensures var before, after := s.requests[i].status, Next(s, step).requests[i].status;
            && (before != Viewed ==> (after == Viewed <==> Opens(s, step, i)))
            && (before != Declined ==> (after == Declined <==> Declines(s, step, i)))
            && (before != after ==> after == Signed || after == Sent || after == Viewed || after == Declined)
  {
    hide Next, MaySign, LastSignature, NextToNotify, FirstSigner;
    RowChanges(s, step, i);
  }

  /** Address, role, order and access code of a request never change; a mark changes with a submission, a delegation only once. */
  lemma IdentityIsKept(s: State, step: Step, i: nat)
    requires Kept(s, step, i)
    ensures i < |Next(s, step).requests|
    ensures var before, after := s.requests[i], Next(s, step).requests[i];
            && after.email == before.email && after.role == before.role
            && after.order == before.order && after.accessCode == before.accessCode
            && after.delegatedTo == (if HandsOn(s, step, i) then Some(step.email) else before.delegatedTo)
            && after.mark == (if RollsBack(s, step, i) then None else if Submits(s, step, i) then step.sub.mark else before.mark)
  {
    hide Next, MaySign, LastSignature, NextToNotify, FirstSigner;
    RowChanges(s, step, i);
  }
}

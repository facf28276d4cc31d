/**
 Every signer of a document that is out has a field: when exactly what sendForSignature checks
 once is kept by the other handlers, none of which checks it again.
 */
module Readiness {
  import opened Wrappers
  import opened Rows
  import opened Lifecycle
  import opened SequentialRouting
  import Completion

  // ----- how many signers count -----

  function CountUpTo(rows: seq<Request>, n: nat, p: Request -> bool): nat
    requires n <= |rows|
  {
    if n == 0 then 0 else CountUpTo(rows, n - 1, p) + if p(rows[n - 1]) then 1 else 0
  }

  lemma {:induction false} OrderedCounts(rows: seq<Request>, n: nat, p: Request -> bool)
    requires n <= |rows|
    ensures |OrderedUpTo(rows, n, p)| == CountUpTo(rows, n, p)
  {
    if n > 0 { OrderedCounts(rows, n - 1, p); }
  }

  lemma {:induction false} CountDependsOnActive(a: seq<Request>, b: seq<Request>, n: nat)
    requires n <= |a| && n <= |b| && forall i | 0 <= i < n :: Active(a[i]) == Active(b[i])
    ensures CountUpTo(a, n, Active) == CountUpTo(b, n, Active)
  {
    if n > 0 { CountDependsOnActive(a, b, n - 1); }
  }

  lemma {:induction false} CountWithoutOne(a: seq<Request>, b: seq<Request>, n: nat, i: nat)
    requires i < n <= |a| && n <= |b| && Active(a[i]) && !Active(b[i])
    requires forall j | 0 <= j < n && j != i :: Active(a[j]) == Active(b[j])
    ensures CountUpTo(a, n, Active) == CountUpTo(b, n, Active) + 1
  {
    if i < n - 1 { CountWithoutOne(a, b, n - 1, i); } else { CountDependsOnActive(a, b, n - 1); }
  }

  function SignersThatCount(rows: seq<Request>): nat { |ActiveSlots(rows)| }

  lemma CountIsSlots(rows: seq<Request>)
    ensures SignersThatCount(rows) == CountUpTo(rows, |rows|, Active)
  {
    OrderedCounts(rows, |rows|, Active);
  }

  lemma DelegationCount(rows: seq<Request>, i: nat, email: string)
    requires i < |rows| && rows[i].delegatedTo.None?
    ensures SignersThatCount(HandOn(rows, i, email)) == SignersThatCount(rows) + if rows[i].role == SignerRole then 0 else 1
  {
    var after, n := HandOn(rows, i, email), |rows|;
    assert forall j | 0 <= j < n && j != i :: after[j] == rows[j];
    CountIsSlots(rows);
    CountIsSlots(after);
    if rows[i].role == SignerRole { CountWithoutOne(rows, after, n, i); } else { CountDependsOnActive(rows, after, n); }
  }

  /** Delegation keeps the number of signers exactly when a signer delegates; delegate does not look at the role. */
  lemma DelegationKeepsCountIff(rows: seq<Request>, i: nat, email: string)
    requires i < |rows| && rows[i].delegatedTo.None?
    ensures SignersThatCount(HandOn(rows, i, email)) == SignersThatCount(rows) <==> rows[i].role == SignerRole
  {
    DelegationCount(rows, i, email);
  }

  /** For instance, a cc recipient hands on what was sent to read. */
  lemma HandedOnCopyAddsASigner(email: string)
    ensures var rows := [Request("a", SignerRole, 1, Sent, false, None, None), Request("b", CcRole, 2, Sent, false, None, None)];
            SignersThatCount(rows) == 1 && SignersThatCount(HandOn(rows, 1, email)) == 2
  {
    var rows := [Request("a", SignerRole, 1, Sent, false, None, None), Request("b", CcRole, 2, Sent, false, None, None)];
    CountIsSlots(rows);
    assert CountUpTo(rows, 1, Active) == 1 by { assert CountUpTo(rows, 0, Active) == 0; }
    DelegationCount(rows, 1, email);
  }

  lemma {:induction false} NewSignersCount(rs: seq<Recipient>, n: nat)
    requires n <= |rs|
    ensures CountUpTo(NewRequests(rs), n, Active) == SignerCount(rs[..n])
  {
    if n > 0 {
      NewSignersCount(rs, n - 1);
      SignerCountLast(rs[..n]);
      assert rs[..n][..n - 1] == rs[..n - 1];
    }
  }

  lemma {:induction false} SignerCountLast(rs: seq<Recipient>)
    requires rs != []
    ensures SignerCount(rs) == SignerCount(rs[..|rs| - 1]) + if rs[|rs| - 1].isSigner then 1 else 0
  {
    if |rs| > 1 {
      SignerCountLast(rs[1..]);
      assert rs[1..][..|rs| - 2] == rs[..|rs| - 1][1..];
    }
  }

  // ----- the invariant -----

  predicate FieldsCover(s: State) { EverySignerHasField(s.fields, SignersThatCount(s.requests)) }

  /** Signatures or approvals are awaited, or an approval left pending can still release the document. */
  predicate CanBeOut(s: State) {
    s.doc.Some? && s.doc.value.status != Draft
    && (s.doc.value.status == DocSent || s.doc.value.status == PendingInternalApproval || !ApprovalsSettled(s.approvals))
  }

  /** While the document is out, or can get out without being sent again, it has a file and every signer that counts a field. */
  predicate Ready(s: State) {
    && (CanBeOut(s) ==> s.doc.value.hasFile && FieldsCover(s))
    && (s.doc.Some? && s.doc.value.status == Draft ==> ApprovalsSettled(s.approvals))
  }

  /**
   What a step must satisfy: whoever hands on a request that is no signer's needs a field for the
   new signer, and a draft whose last signature fails to be stored goes out with the fields it has.
   */
  predicate ReadyGuard(s: State, step: Step) {
    match step
    case DelegateBy(i, email) =>
      MayDelegate(s, i) && CanBeOut(s) ==>
        s.requests[i].role == SignerRole || HasFieldFor(s.fields, SignersThatCount(s.requests))
    case SignBy(i, sub) =>
      (&& s.doc.Some? && s.doc.value.status == Draft && i < |s.requests| && SignRefusal(s, i, sub).None?
       && AllSignersSigned(MarkSigned(s.requests, i, sub.mark)) && !sub.pdfStored) ==> s.doc.value.hasFile && FieldsCover(s)
    case _ => true
  }

  lemma SameActiveSameCount(a: seq<Request>, b: seq<Request>)
    requires |a| == |b| && forall i | 0 <= i < |a| :: Active(a[i]) == Active(b[i])
    ensures SignersThatCount(a) == SignersThatCount(b)
  {
    CountIsSlots(a);
    CountIsSlots(b);
    CountDependsOnActive(a, b, |a|);
  }

  lemma SendKeepsReady(s: State, p: Sending)
    requires Ready(s)
    ensures Ready(SendStep(s, p).0)
  {
    var rows := NewRequests(p.recipients);
    CountIsSlots(rows);
    NewSignersCount(p.recipients, |rows|);
    assert p.recipients[..|rows|] == p.recipients;
    SameActiveSameCount(rows, Released(rows, p.sequential));
  }

  lemma DelegateReadyIff(s: State, i: nat, email: string)
    requires Ready(s)
    ensures Ready(DelegateStep(s, i, email).0) <==> ReadyGuard(s, DelegateBy(i, email))
  {
    if MayDelegate(s, i) { DelegationCount(s.requests, i, email); }
  }

  lemma DecideKeepsReady(s: State, k: nat, decision: Decision)
    requires Ready(s)
    ensures Ready(DecideStep(s, k, decision).0)
  {
    if s.doc.Some? && k < |s.approvals| && s.approvals[k].status == ApprovalPending && s.doc.value.orgActive {
      SameActiveSameCount(s.requests, Released(s.requests, s.doc.value.sequential));
      var decided := s.approvals[k := s.approvals[k].(status := StatusOf(decision))];
      assert decided[k].status == StatusOf(decision);
      if decision == Approve {
        StillSettled(s.approvals, k);
      }
    }
  }

  /** One more approval settles nothing that was open, unless it is the last. */
  lemma StillSettled(approvals: seq<Approval>, k: nat)
    requires k < |approvals| && approvals[k].status == ApprovalPending
    ensures var decided := approvals[k := approvals[k].(status := Approved)];
            if AllApproved(decided) then !ApprovalsSettled(approvals) else ApprovalsSettled(decided) == ApprovalsSettled(approvals)
  {
    var decided := approvals[k := approvals[k].(status := Approved)];
    assert forall j | 0 <= j < |approvals| && j != k :: decided[j] == approvals[j];
    assert !AllApproved(approvals);
    if j :| 0 <= j < |approvals| && approvals[j].status == Rejected { assert decided[j].status == Rejected; }
  }

  lemma SignReadyIff(s: State, i: nat, sub: Submission)
    requires Ready(s)
    ensures Ready(SignStep(s, i, sub).0) <==> ReadyGuard(s, SignBy(i, sub))
  {
    hide SignersThatCount, EverySignerHasField, PdfEntries, ApprovalsSettled;
    SameActiveSameCount(s.requests, SignStep(s, i, sub).0.requests);
  }

  /** A step keeps this if and only if it satisfies its guard. */
  lemma ReadyKeptIff(s: State, step: Step)
    requires Ready(s)
    ensures Ready(Next(s, step)) <==> ReadyGuard(s, step)
  {
    match step
    case SignBy(i, sub) => SignReadyIff(s, i, sub);
    case ViewBy(i) => SameActiveSameCount(s.requests, ViewStep(s, i).0.requests);
    case DeclineBy(i) => SameActiveSameCount(s.requests, DeclineStep(s, i).0.requests);
    case DelegateBy(i, email) => DelegateReadyIff(s, i, email);
    case Send(p) => SendKeepsReady(s, p);
    case Decide(k, decision) => DecideKeepsReady(s, k, decision);
    case _ =>
  }

  predicate ReadyRun(s: State, steps: seq<Step>)
    decreases |steps|
  {
    steps == [] || (ReadyGuard(s, steps[0]) && ReadyRun(Next(s, steps[0]), steps[1..]))
  }

  lemma {:induction false} RunKeepsReady(s: State, steps: seq<Step>)
    requires Ready(s) && ReadyRun(s, steps)
    ensures Ready(Run(s, steps))
    decreases |steps|
  {
    if steps != [] {
      ReadyKeptIff(s, steps[0]);
      RunKeepsReady(Next(s, steps[0]), steps[1..]);
    }
  }

  /** In every guarded run from a new draft, each place among the signers of a document that is out has a field. */
  lemma EverySignerOfASentDocumentHasAField(s: State, steps: seq<Step>, k: nat)
    requires Fresh(s) && ReadyRun(s, steps)
    requires var t := Run(s, steps); t.doc.Some? && t.doc.value.status == DocSent && k < |ActiveSlots(t.requests)|
    ensures var t := Run(s, steps); t.doc.value.hasFile && HasFieldFor(t.fields, k)
  {
    RunKeepsReady(s, steps);
  }

  // ----- no guard can be dropped -----

  /** A document that awaits approval can be approved. */
  predicate AwaitedIsOpen(s: State) {
    s.doc.Some? && s.doc.value.status == PendingInternalApproval ==> !ApprovalsSettled(s.approvals)
  }

  lemma StepKeepsAwaitedOpen(s: State, step: Step)
    requires AwaitedIsOpen(s)
    ensures AwaitedIsOpen(Next(s, step))
  {
    hide PdfEntries, SignRefusal, AllSignersSigned, EverySignerHasField;
    if step.Send? && step.sending.approverOrders != [] {
      var approvals := NewApprovals(step.sending.approverOrders);
      assert approvals[0].status == ApprovalPending && forall k | 0 <= k < |approvals| :: approvals[k].status == ApprovalPending;
    }
    if step.Decide? && step.k < |s.approvals| && s.approvals[step.k].status == ApprovalPending {
      StillSettled(s.approvals, step.k);
    }
  }

  lemma {:induction false} RunKeepsAwaitedOpen(s: State, steps: seq<Step>)
    requires AwaitedIsOpen(s)
    ensures AwaitedIsOpen(Run(s, steps))
    decreases |steps|
  {
    if steps != [] {
      StepKeepsAwaitedOpen(s, steps[0]);
      RunKeepsAwaitedOpen(Next(s, steps[0]), steps[1..]);
    }
  }

  predicate Equipped(s: State) { s.doc.Some? && s.doc.value.hasFile && FieldsCover(s) }

  lemma RecipientsKeepDraftsSettled(s: State, step: Step)
    requires Ready(s) && (step.SignBy? || step.DelegateBy?)
    ensures var t := Next(s, step); t.doc.Some? && t.doc.value.status == Draft ==> ApprovalsSettled(t.approvals)
  {
    hide PdfEntries, SignRefusal, AllSignersSigned, ApprovalsSettled, FieldsCover;
  }

  /** What a step that ignores its guard breaks. */
  lemma UnguardedLeavesAGap(s: State, step: Step)
    requires Ready(s) && !ReadyGuard(s, step)
    ensures CanBeOut(Next(s, step)) && !Equipped(Next(s, step))
  {
    hide Next, FieldsCover, ApprovalsSettled;
    ReadyKeptIff(s, step);
    RecipientsKeepDraftsSettled(s, step);
  }

  lemma ReleaseLeavesTheGap(t: State, u: State)
    requires t.doc.Some? && u.doc == Some(t.doc.value.(status := DocSent, orgActive := true)) && u.fields == t.fields
    requires u.requests == Released(t.requests, t.doc.value.sequential)
    ensures Equipped(u) <==> Equipped(t)
  {
    SameActiveSameCount(t.requests, u.requests);
  }

  /**
   Whenever a guarded run goes on with a step that ignores its guard, some way to go on further
   leaves the document out without a file, or with a signer without a field.
   */
  lemma EveryReadyGuardIsNeeded(s: State, steps: seq<Step>, bad: Step) returns (more: seq<Step>)
    requires Fresh(s) && ReadyRun(s, steps) && !ReadyGuard(Run(s, steps), bad)
    ensures var t := Run(s, steps + [bad] + more); t.doc.Some? && t.doc.value.status == DocSent && !Equipped(t)
  {
    RunKeepsReady(s, steps);
    RunKeepsAwaitedOpen(s, steps + [bad]);
    RunAppend(s, steps, bad);
    var t := Next(Run(s, steps), bad);
    UnguardedLeavesAGap(Run(s, steps), bad);
    if t.doc.value.status == DocSent {
      more := [];
    } else {
      more := ReleaseFollows(t);
      ReleaseLeavesTheGap(t, Run(t, more));
    }
    RunConcat(s, steps + [bad], more);
  }

  // ----- rejections -----

  /** Nobody has been notified of a draft, nor of a document that awaits approval. */
  predicate Quiet(s: State) {
    s.doc.Some? && (s.doc.value.status == Draft || s.doc.value.status == PendingInternalApproval) ==> AllWaiting(s.requests)
  }

  predicate AllWaiting(rows: seq<Request>) { forall i | 0 <= i < |rows| :: rows[i].status == Pending }

  /** The rejection of a pending approval that decide accepts. */
  predicate Rejects(s: State, step: Step) {
    && step.Decide? && step.decision == Reject && s.doc.Some? && s.doc.value.orgActive
    && step.k < |s.approvals| && s.approvals[step.k].status == ApprovalPending
  }

  /** A rejection leaves a quiet draft exactly when it comes in time, or nobody has been notified yet. */
  lemma RejectionKeepsQuietIff(s: State, step: Step)
    requires Quiet(s) && Rejects(s, step)
    ensures Quiet(Next(s, step))
       <==> s.doc.value.status == Draft || s.doc.value.status == PendingInternalApproval || AllWaiting(s.requests)
  {
  }

  /** Recipients act on what was sent to them, only signers hand on, and rejections leave quiet drafts. */
  predicate Timely(s: State, step: Step) {
    && Polite(s, step)
    && (Rejects(s, step) ==>
          s.doc.value.status == Draft || s.doc.value.status == PendingInternalApproval || AllWaiting(s.requests))
  }

  predicate TimelyRun(s: State, steps: seq<Step>)
    decreases |steps|
  {
    steps == [] || (Timely(s, steps[0]) && TimelyRun(Next(s, steps[0]), steps[1..]))
  }

  lemma TimelyStep(s: State, step: Step)
    requires Quiet(s) && Timely(s, step)
    ensures ReadyGuard(s, step) && Quiet(Next(s, step))
  {
    if Rejects(s, step) { RejectionKeepsQuietIff(s, step); }
  }

  /** So late rejections are all that courteous recipients have to fear. */
  lemma {:induction false} TimelyRunsAreReady(s: State, steps: seq<Step>)
    requires Quiet(s) && TimelyRun(s, steps)
    ensures ReadyRun(s, steps)
    decreases |steps|
  {
    if steps != [] {
      TimelyStep(s, steps[0]);
      TimelyRunsAreReady(Next(s, steps[0]), steps[1..]);
    }
  }

  // ----- a signer without a field -----

  predicate PoliteStepTo(s: State, step: Step, t: State) { Polite(s, step) && Next(s, step) == t }

  ghost predicate ReachedPolitely(s: State, t: State) { exists steps :: PoliteRun(s, steps) && Run(s, steps) == t }

  lemma {:induction false} PoliteRunAppend(s: State, steps: seq<Step>, last: Step)
    requires PoliteRun(s, steps) && Polite(Run(s, steps), last)
    ensures PoliteRun(s, steps + [last])
    decreases |steps|
  {
    if steps == [] {
      assert [last][1..] == [] && steps + [last] == [last];
    } else {
      assert (steps + [last])[1..] == steps[1..] + [last] && (steps + [last])[0] == steps[0];
      PoliteRunAppend(Next(s, steps[0]), steps[1..], last);
    }
  }

  lemma OneStepFurther(s: State, t: State, step: Step, u: State)
    requires ReachedPolitely(s, t) && PoliteStepTo(t, step, u)
    ensures ReachedPolitely(s, u)
  {
    var steps :| PoliteRun(s, steps) && Run(s, steps) == t;
    PoliteRunAppend(s, steps, step);
    RunAppend(s, steps, step);
  }

  /**
   An approval left over from a rejected round is rejected while the document is out; the draft is
   edited, and the last signature cannot be stored: the document is out with a signer and no field.
   */
  lemma LateRejectionLosesAField(email: string, mark: string)
    ensures Fresh(Completion.NEW_DRAFT)
    ensures exists t :: ReachedPolitely(Completion.NEW_DRAFT, t) && t.doc.Some? && t.doc.value.status == DocSent
                        && |ActiveSlots(t.requests)| == 1 && t.fields == []
  {
    var s0 := Completion.NEW_DRAFT;
    var to := [Recipient(email, true, 1, false)];
    Completion.LeftoverApproval(email);
    var s1 := Next(s0, Send(Sending(to, false, None, [1, 2])));
    var s2 := Next(s1, Decide(0, Reject));
    var s3 := Next(s2, Send(Sending(to, false, None, [])));
    assert PoliteRun(s0, []) && Run(s0, []) == s0;
    OneStepFurther(s0, s0, Send(Sending(to, false, None, [1, 2])), s1);
    OneStepFurther(s0, s1, Decide(0, Reject), s2);
    OneStepFurther(s0, s2, Send(Sending(to, false, None, [])), s3);
    var t := EditedAndSigned(s3, s3.requests[0], mark);
    var s4 := Next(s3, Decide(1, Reject));
    var s5 := Next(s4, Edit([], false));
    OneStepFurther(s0, s3, Decide(1, Reject), s4);
    OneStepFurther(s0, s4, Edit([], false), s5);
    OneStepFurther(s0, s5, SignBy(0, Submission(0, true, Some(mark), false)), t);
  }

  lemma EditedAndSigned(s: State, r: Request, mark: string) returns (t: State)
    requires s.doc.Some? && s.doc.value.status == DocSent && s.doc.value.orgActive && s.doc.value.expiresAt.None?
    requires s.requests == [r] && Active(r) && r.status == Sent
    requires s.approvals == [Approval(1, Rejected), Approval(2, ApprovalPending)]
    ensures var edited := Next(Next(s, Decide(1, Reject)), Edit([], false));
            PoliteStepTo(edited, SignBy(0, Submission(0, true, Some(mark), false)), t)
    ensures t.doc.Some? && t.doc.value.status == DocSent && |ActiveSlots(t.requests)| == 1 && t.fields == []
  {
    var s4 := Next(s, Decide(1, Reject));
    assert s4.doc.value.status == Draft && s4.requests == [r];
    var s5 := Next(s4, Edit([], false));
    assert s5 == State(Some(s.doc.value.(status := Draft, sequential := false)), [r], s4.approvals, []);
    var sub := Submission(0, true, Some(mark), false);
    t := Next(s5, SignBy(0, sub));
    assert SignRefusal(s5, 0, sub).None?;
    var marked := MarkSigned([r], 0, sub.mark);
    assert Active(marked[0]);
    assert AllSignersSigned(marked);
    CountIsSlots(t.requests);
    assert CountUpTo(t.requests, 0, Active) == 0 && Active(t.requests[0]);
  }
}

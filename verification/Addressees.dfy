/**
 Whose requests a document has: through every run, the addresses in the rows are those of the last
 sending and of the delegations accepted since, each delegation has a row of its own, and the
 delegate's address, and no other, signs it.
 */
module Addressees {
  import opened Wrappers
  import opened Rows
  import opened Lifecycle
  import opened SigningRules
  import DocumentRules
  import Email

  // ----- the new row of a delegation -----

  /** A signer's request for the delegate, with the order, access code and turn of the one handed on. */
  predicate DelegateRow(from: Request, email: string, r: Request) {
    && r.email == email && r.role == SignerRole && r.order == from.order && r.accessCode == from.accessCode
    && r.status == (if from.status == Pending then Pending else Sent)
    && r.delegatedTo.None? && r.mark.None?
  }

  /** Rows are added by accepted delegations only, one at a time, at the end. */
  lemma RowsAdded(s: State, step: Step)
    requires !Replaces(step)
    ensures var r, n := Next(s, step).requests, |s.requests|;
            if step.DelegateBy? && HandsOn(s, step, step.i)
            then |r| == n + 1 && DelegateRow(s.requests[step.i], step.email, r[n])
            else |r| == n
  {
    hide PdfEntries, SignRefusal, AllSignersSigned, AllApproved;
  }

  // ----- whose addresses -----

  /** The addresses a run hands requests to: those of the last sending, then those of the delegations. */
  function Addressed(emails: seq<string>, s: State, steps: seq<Step>): seq<string>
    decreases |steps|
  {
    if steps == [] then emails else Addressed(AddressedBy(emails, s, steps[0]), Next(s, steps[0]), steps[1..])
  }

  function AddressedBy(emails: seq<string>, s: State, step: Step): seq<string> {
    if step.Send? && DocumentRules.MaySend(s, step.sending) then Emails(step.sending.recipients)
    else if step.DelegateBy? && HandsOn(s, step, step.i) then emails + [step.email]
    else if step.DeleteDocument? && s.doc.Some? then []
    else emails
  }

  function Emails(rs: seq<Recipient>): (r: seq<string>)
    ensures |r| == |rs| && forall j | 0 <= j < |rs| :: r[j] == rs[j].email
  {
    seq(|rs|, j requires 0 <= j < |rs| => rs[j].email)
  }

  predicate HoldAddresses(rows: seq<Request>, emails: seq<string>) {
    |rows| == |emails| && forall j | 0 <= j < |rows| :: rows[j].email == emails[j]
  }

  lemma StepHoldsAddresses(s: State, step: Step, emails: seq<string>)
    requires HoldAddresses(s.requests, emails)
    ensures HoldAddresses(Next(s, step).requests, AddressedBy(emails, s, step))
  {
    if !Replaces(step) {
      hide Next, HandsOn;
      RowsAdded(s, step);
      forall j | 0 <= j < |s.requests| ensures j < |Next(s, step).requests| && Next(s, step).requests[j].email == emails[j] {
        IdentityIsKept(s, step, j);
      }
    } else if step.Send? {
      SendHoldsAddresses(s, step.sending, emails);
    }
  }

  lemma SendHoldsAddresses(s: State, p: Sending, emails: seq<string>)
    requires HoldAddresses(s.requests, emails)
    ensures HoldAddresses(Next(s, Send(p)).requests, AddressedBy(emails, s, Send(p)))
  {
    hide DocumentRules.MaySend;
    DocumentRules.SendAcceptedIff(s, p);
    if DocumentRules.MaySend(s, p) {
      hide SendStep;
      DocumentRules.RowsAfterSending(s, p);
      forall j | 0 <= j < |p.recipients| ensures Next(s, Send(p)).requests[j].email == Emails(p.recipients)[j] {
        assert DocumentRules.RowSent(p, j, Next(s, Send(p)).requests[j]);
      }
    } else {
      assert Next(s, Send(p)) == s;
    }
  }

  /** In every state reached from a new draft, the rows carry exactly these addresses, in this order. */
  lemma {:induction false} RowsAreAddressed(s: State, steps: seq<Step>, emails: seq<string>)
    requires HoldAddresses(s.requests, emails)
    ensures HoldAddresses(Run(s, steps).requests, Addressed(emails, s, steps))
    decreases |steps|
  {
    if steps != [] {
      StepHoldsAddresses(s, steps[0], emails);
      RowsAreAddressed(Next(s, steps[0]), steps[1..], AddressedBy(emails, s, steps[0]));
    }
  }

  lemma FromANewDraft(s: State, steps: seq<Step>)
    requires Fresh(s)
    ensures HoldAddresses(Run(s, steps).requests, Addressed([], s, steps))
  {
    RowsAreAddressed(s, steps, []);
  }

  // ----- every delegation has its row -----

  /** Row j is the request of the delegate of row i. */
  predicate IsHeir(rows: seq<Request>, i: nat, j: nat) {
    && i < j < |rows| && rows[i].delegatedTo == Some(rows[j].email)
    && rows[j].role == SignerRole && rows[j].order == rows[i].order && rows[j].accessCode == rows[i].accessCode
  }

  /** Every row handed on has an heir, and no two have the same. */
  predicate Heirs(rows: seq<Request>, heir: map<nat, nat>) {
    && (forall i: nat | i < |rows| && rows[i].delegatedTo.Some? :: i in heir && IsHeir(rows, i, heir[i]))
    && forall i, j | i in heir && j in heir && i != j :: heir[i] != heir[j]
  }

  ghost predicate EachHasItsHeir(rows: seq<Request>) {
    exists heir: map<nat, nat> :: Heirs(rows, heir) && forall i | i in heir :: heir[i] < |rows|
  }

  lemma DelegationAddsAnHeir(s: State, step: Step, heir: map<nat, nat>)
    requires !Replaces(step) && Heirs(s.requests, heir) && forall i | i in heir :: heir[i] < |s.requests|
    ensures EachHasItsHeir(Next(s, step).requests)
  {
    var a, b, n := s.requests, Next(s, step).requests, |s.requests|;
    RowsAdded(s, step);
    forall i: nat | i < n
      ensures && i < |b| && b[i].email == a[i].email && b[i].role == a[i].role && b[i].order == a[i].order && b[i].accessCode == a[i].accessCode
              && b[i].delegatedTo == (if HandsOn(s, step, i) then Some(step.email) else a[i].delegatedTo)
    {
      IdentityIsKept(s, step, i);
    }
    hide Next;
    if step.DelegateBy? && HandsOn(s, step, step.i) {
      OneMoreHeir(a, b, step.i, step.email, heir);
    } else {
      assert forall i: nat | i < n :: !HandsOn(s, step, i);
      assert Heirs(b, heir);
    }
  }

  lemma OneMoreHeir(a: seq<Request>, b: seq<Request>, i: nat, email: string, heir: map<nat, nat>)
    requires Heirs(a, heir) && (forall k | k in heir :: heir[k] < |a|)
    requires i < |a| && |b| == |a| + 1 && a[i].delegatedTo.None? && DelegateRow(a[i], email, b[|a|])
    requires forall k | 0 <= k < |a| ::
               && b[k].email == a[k].email && b[k].role == a[k].role && b[k].order == a[k].order && b[k].accessCode == a[k].accessCode
               && b[k].delegatedTo == (if k == i then Some(email) else a[k].delegatedTo)
    ensures EachHasItsHeir(b)
  {
    var more := heir[i := |a|];
    assert Heirs(b, more);
  }

  lemma StepKeepsHeirs(s: State, step: Step)
    requires EachHasItsHeir(s.requests)
    ensures EachHasItsHeir(Next(s, step).requests)
  {
    var heir: map<nat, nat> :| Heirs(s.requests, heir) && forall i | i in heir :: heir[i] < |s.requests|;
    if !Replaces(step) {
      DelegationAddsAnHeir(s, step, heir);
    } else if step.Send? {
      SendKeepsHeirs(s, step.sending);
    } else {
      assert s.doc.Some? ==> Heirs(Next(s, step).requests, map[]);
    }
  }

  lemma SendKeepsHeirs(s: State, p: Sending)
    requires EachHasItsHeir(s.requests)
    ensures EachHasItsHeir(Next(s, Send(p)).requests)
  {
    hide DocumentRules.MaySend;
    DocumentRules.SendAcceptedIff(s, p);
    if DocumentRules.MaySend(s, p) {
      hide SendStep;
      DocumentRules.RowsAfterSending(s, p);
      var rows := Next(s, Send(p)).requests;
      forall j | 0 <= j < |rows| ensures rows[j].delegatedTo.None? { assert DocumentRules.RowSent(p, j, rows[j]); }
      assert Heirs(rows, map[]);
    } else {
      assert Next(s, Send(p)) == s;
    }
  }

  /** In every state reached from a new draft each request that was handed on has its own later request for the delegate. */
  lemma {:induction false} RunKeepsHeirs(s: State, steps: seq<Step>)
    requires EachHasItsHeir(s.requests)
    ensures EachHasItsHeir(Run(s, steps).requests)
    decreases |steps|
  {
    if steps != [] {
      StepKeepsHeirs(s, steps[0]);
      RunKeepsHeirs(Next(s, steps[0]), steps[1..]);
    }
  }

  lemma EveryDelegateHasARequest(s: State, steps: seq<Step>)
    requires Fresh(s)
    ensures EachHasItsHeir(Run(s, steps).requests)
  {
    assert Heirs(s.requests, map[]);
    RunKeepsHeirs(s, steps);
  }

  // ----- who signs the new row -----

  /** What the handler makes of a submission: the address compared with the row's. */
  function From(rows: seq<Request>, i: nat, address: string, now: int, mark: Option<string>, pdfStored: bool): Submission {
    Submission(now, i < |rows| && Email.EmailsMatch(address, rows[i].email), mark, pdfStored)
  }

  /**
   After an accepted delegation, a timely submission with a mark is accepted on the new row exactly
   if its address matches the delegate's; it is refused for its address otherwise, and the
   delegator's own row is refused as delegated.
   */
  lemma DelegateMaySign(s: State, i: nat, email: string, address: string, now: int, mark: Option<string>, pdfStored: bool)
    requires HandsOn(s, DelegateBy(i, email), i) && mark.Some?
    requires s.doc.value.expiresAt.Some? ==> now <= s.doc.value.expiresAt.value
    ensures var t, n := Next(s, DelegateBy(i, email)), |s.requests|;
            var sub := From(t.requests, n, address, now, mark, pdfStored);
            && (Submits(t, SignBy(n, sub), n) <==> Email.EmailsMatch(address, email))
            && (SignStep(t, n, sub).1 == Err(InvalidEmail) <==> !Email.EmailsMatch(address, email))
            && (s.requests[i].role != CcRole && s.requests[i].status != Declined ==>
                  forall own: Submission :: SignStep(t, i, own).1 == Err(Delegated))
  {
    var t, n := Next(s, DelegateBy(i, email)), |s.requests|;
    RowsAdded(s, DelegateBy(i, email));
    RowChanges(s, DelegateBy(i, email), i);
    DocumentRules.DocumentChanges(s, DelegateBy(i, email));
    hide Next, Email.EmailsMatch, MarkDue, LastSignature;
    var sub := From(t.requests, n, address, now, mark, pdfStored);
    assert DocumentRules.InTime(t, n, now);
    DocumentRules.SignAnswers(t, n, sub);
    forall own: Submission ensures s.requests[i].role != CcRole && s.requests[i].status != Declined ==> SignStep(t, i, own).1 == Err(Delegated) {
      DocumentRules.SignAnswers(t, i, own);
    }
  }
}

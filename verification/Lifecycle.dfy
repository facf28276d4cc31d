/**
 What each handler of the signing workflow does to one document's rows, as functions of the
 rows. The handlers themselves are the methods of Workflow.DocumentRows.
 */
module Lifecycle {
  import opened Wrappers
  import opened Rows

  datatype DocStatus =
    Draft | PendingInternalApproval | DocSent | Completed | DocDeclined | Voided | DocExpired

  datatype Document = Document(
    status: DocStatus,
    sequential: bool,
    hasFile: bool,
    orgActive: bool,
    expiresAt: Option<int>,
    completedAt: Option<int>,
    signedPdf: Option<seq<PdfEntry>>)

  /** One document with its requests, approvals and fields; doc is None once deleted. */
  datatype State = State(
    doc: Option<Document>,
    requests: seq<Request>,
    approvals: seq<Approval>,
    fields: seq<Field>)

  datatype Error =
    NotFound | NotOpen | AlreadySigned | AlreadyDeclined | CcCannotSign | Delegated | Expired
    | OrganizationDisabled | InvalidEmail | DataRequired | PdfFailed | DraftOnly | PdfRequired
    | SignerRequired | SignerFieldRequired | VoidStatusInvalid | AlreadyProcessed

  datatype Outcome = Ok(flag: bool) | Err(error: Error)

  predicate Closed(status: DocStatus) {
    status == Completed || status == Voided || status == DocExpired || status == DocDeclined
  }

  function SetStatus(rows: seq<Request>, i: nat, status: RequestStatus): seq<Request>
    requires i < |rows|
  {
    rows[i := rows[i].(status := status)]
  }

  // ----- sign -----

  /**
   What a signer hands in at a given time: whether the e-mail address given matches the
   request's (Email.EmailsMatch), the mark, and whether building and storing the PDF succeeds
   should this submission complete the document.
   */
  datatype Submission = Submission(now: int, emailMatches: bool, mark: Option<string>, pdfStored: bool)

  predicate NeedsImage(f: Field) { f.kind == SignatureField || f.kind == StampField }

  /** The place of row i among all signer rows, delegated ones included, or -1. */
  function SignerIndex(rows: seq<Request>, i: nat): int {
    IndexOf(Ordered(rows, IsSigner), i)
  }

  /** The fields a submission is checked against: the signer's own, or all for a non-signer. */
  predicate ImageRequired(s: State, i: nat) {
    var k := SignerIndex(s.requests, i);
    exists f | 0 <= f < |s.fields| :: (k >= 0 ==> s.fields[f].signerIndex == k) && NeedsImage(s.fields[f])
  }

  /** Why sign turns row i away before marking it, if it does. */
  function SignRefusal(s: State, i: nat, sub: Submission): Option<Error> {
    if s.doc.None? || i >= |s.requests| then Some(NotFound)
    else
      var r, d := s.requests[i], s.doc.value;
      if r.status == Signed then Some(AlreadySigned)
      else if r.status == Declined then Some(AlreadyDeclined)
      else if r.role == CcRole then Some(CcCannotSign)
      else if Closed(d.status) then Some(NotOpen)
      else if r.delegatedTo.Some? then Some(Delegated)
      else if d.expiresAt.Some? && d.expiresAt.value < sub.now then Some(Expired)
      else if !d.orgActive then Some(OrganizationDisabled)
      else if !sub.emailMatches then Some(InvalidEmail)
      else if ImageRequired(s, i) && sub.mark.None? then Some(DataRequired)
      else None
  }

  function MarkSigned(rows: seq<Request>, i: nat, mark: Option<string>): seq<Request>
    requires i < |rows|
  {
    rows[i := rows[i].(status := Signed, mark := mark)]
  }

  /** Sequential routing: the next signer gets the turn unless it already has one. */
  function NotifyNext(rows: seq<Request>): seq<Request> {
    var next := NextPendingSigner(rows);
    if next.Some? && rows[next.value].status == Pending then SetStatus(rows, next.value, Sent) else rows
  }

  function SignStep(s: State, i: nat, sub: Submission): (State, Outcome) {
    var refusal := SignRefusal(s, i, sub);
    if refusal == Some(Expired) && s.doc.Some? then
      (s.(doc := Some(s.doc.value.(status := DocExpired))), Err(Expired))
    else if refusal.Some? || s.doc.None? || i >= |s.requests| then (s, Err(refusal.GetOr(NotFound)))
    else
      var d := s.doc.value;
      var marked := MarkSigned(s.requests, i, sub.mark);
      if AllSignersSigned(marked) then
        if sub.pdfStored then
          (s.(doc := Some(d.(status := Completed, completedAt := Some(sub.now),
                             signedPdf := Some(PdfEntries(marked, s.fields)))),
              requests := marked), Ok(true))
        else
          (s.(doc := Some(d.(status := DocSent, completedAt := None)),
              requests := marked[i := marked[i].(status := Sent, mark := None)]), Err(PdfFailed))
      else if d.sequential then
        (s.(requests := NotifyNext(marked)), Ok(false))
      else
        (s.(requests := marked), Ok(false))
  }

  /** Past the checks an address that matches was given; once accepted, the row is signed with the mark. */
  lemma PastTheChecks(s: State, i: nat, sub: Submission)
    ensures var (t, o) := SignStep(s, i, sub);
            && (o.Ok? || o == Err(PdfFailed) ==> i < |s.requests| && sub.emailMatches)
            && (o.Ok? ==> i < |t.requests| && t.requests[i] == s.requests[i].(status := Signed, mark := sub.mark))
  {
    hide PdfEntries, ImageRequired, AllSignersSigned;
  }

  // ----- view, decline, delegate -----

  /** getByToken: opening a sent request marks it viewed. */
  function ViewStep(s: State, i: nat): (State, Outcome) {
    if s.doc.None? || i >= |s.requests| then (s, Err(NotFound))
    else
      var r, d := s.requests[i], s.doc.value;
      if d.status == Voided || d.status == DocExpired || d.status == DocDeclined then (s, Err(NotOpen))
      else if !d.orgActive then (s, Err(OrganizationDisabled))
      else if r.accessCode then (s, Ok(false))
      else if r.role == SignerRole && r.status == Sent then
        (s.(requests := SetStatus(s.requests, i, Viewed)), Ok(true))
      else (s, Ok(true))
  }

  function DeclineStep(s: State, i: nat): (State, Outcome) {
    if s.doc.None? || i >= |s.requests| then (s, Err(NotFound))
    else
      var r, d := s.requests[i], s.doc.value;
      if r.status == Signed then (s, Err(AlreadySigned))
      else if r.status == Declined then (s, Err(AlreadyDeclined))
      else if Closed(d.status) then (s, Err(NotOpen))
      else if !d.orgActive then (s, Err(OrganizationDisabled))
      else
        (s.(doc := Some(d.(status := DocDeclined)), requests := SetStatus(s.requests, i, Declined)), Ok(true))
  }

  /** The rows after row i is handed on: marked as delegated, and a new signer row at the end. */
  function HandOn(rows: seq<Request>, i: nat, email: string): seq<Request>
    requires i < |rows|
  {
    var r := rows[i];
    rows[i := r.(delegatedTo := Some(email))]
    + [Request(email, SignerRole, r.order, if r.status == Pending then Pending else Sent, r.accessCode, None, None)]
  }

  predicate MayDelegate(s: State, i: nat) {
    && s.doc.Some? && i < |s.requests|
    && s.requests[i].status != Signed
    && s.requests[i].delegatedTo.None?
    && !Closed(s.doc.value.status)
    && s.doc.value.orgActive
  }

  function DelegateStep(s: State, i: nat, email: string): (State, Outcome) {
    if s.doc.None? || i >= |s.requests| then (s, Err(NotFound))
    else if s.requests[i].status == Signed then (s, Err(AlreadySigned))
    else if s.requests[i].delegatedTo.Some? then (s, Err(Delegated))
    else if Closed(s.doc.value.status) then (s, Err(NotOpen))
    else if !s.doc.value.orgActive then (s, Err(OrganizationDisabled))
    else (s.(requests := HandOn(s.requests, i, email)), Ok(true))
  }

  // ----- send -----

  datatype Recipient = Recipient(email: string, isSigner: bool, order: nat, accessCode: bool)

  datatype Sending = Sending(
    recipients: seq<Recipient>,
    sequential: bool,
    expiresAt: Option<int>,
    approverOrders: seq<int>)

  function NewRequest(r: Recipient): Request {
    Request(r.email, if r.isSigner then SignerRole else CcRole, r.order, Pending, r.accessCode, None, None)
  }

  function NewRequests(rs: seq<Recipient>): (rows: seq<Request>)
    ensures |rows| == |rs|
    ensures forall i | 0 <= i < |rs| :: rows[i] == NewRequest(rs[i])
  {
    seq(|rs|, i requires 0 <= i < |rs| => NewRequest(rs[i]))
  }

  function NewApprovals(orders: seq<int>): (rows: seq<Approval>)
    ensures |rows| == |orders|
    ensures forall i | 0 <= i < |orders| :: rows[i] == Approval(orders[i], ApprovalPending)
  {
    seq(|orders|, i requires 0 <= i < |orders| => Approval(orders[i], ApprovalPending))
  }

  function SignerCount(rs: seq<Recipient>): nat {
    if rs == [] then 0 else SignerCount(rs[1..]) + if rs[0].isSigner then 1 else 0
  }

  predicate EverySignerHasField(fields: seq<Field>, signers: nat) {
    forall k | 0 <= k < signers :: HasFieldFor(fields, k)
  }

  predicate HasFieldFor(fields: seq<Field>, k: nat) {
    exists f | 0 <= f < |fields| :: fields[f].signerIndex == k
  }

  /** The rows once the document goes out: everybody, or the first signer and the cc rows. */
  function Released(rows: seq<Request>, sequential: bool): (r: seq<Request>)
    ensures |r| == |rows|
    ensures forall i | 0 <= i < |rows| ::
      r[i] == if !sequential || rows[i].role == CcRole || FirstBy(rows, IsSigner) == Some(i)
              then rows[i].(status := Sent) else rows[i]
  {
    seq(|rows|, i requires 0 <= i < |rows| =>
      if !sequential || rows[i].role == CcRole || FirstBy(rows, IsSigner) == Some(i)
      then rows[i].(status := Sent) else rows[i])
  }

  function SendStep(s: State, p: Sending): (State, Outcome) {
    if s.doc.None? then (s, Err(NotFound))
    else
      var d := s.doc.value;
      if d.status != Draft then (s, Err(DraftOnly))
      else if !d.hasFile then (s, Err(PdfRequired))
      else if SignerCount(p.recipients) == 0 then (s, Err(SignerRequired))
      else if !EverySignerHasField(s.fields, SignerCount(p.recipients)) then (s, Err(SignerFieldRequired))
      else
        var rows := NewRequests(p.recipients);
        var settings := d.(sequential := p.sequential, expiresAt := p.expiresAt);
        if p.approverOrders != [] then
          (State(Some(settings.(status := PendingInternalApproval)), rows, NewApprovals(p.approverOrders), s.fields), Ok(true))
        else
          (State(Some(settings.(status := DocSent)), Released(rows, p.sequential), s.approvals, s.fields), Ok(false))
  }

  // ----- decide -----

  datatype Decision = Approve | Reject

  function StatusOf(d: Decision): ApprovalStatus { if d == Approve then Approved else Rejected }

  function DecideStep(s: State, k: nat, decision: Decision): (State, Outcome) {
    if k >= |s.approvals| then (s, Err(NotFound))
    else if s.approvals[k].status == StatusOf(decision) then (s, Ok(false))
    else if s.approvals[k].status != ApprovalPending then (s, Err(AlreadyProcessed))
    else if s.doc.None? then (s, Err(NotFound))
    else if !s.doc.value.orgActive then (s, Err(OrganizationDisabled))
    else
      var decided := s.approvals[k := s.approvals[k].(status := StatusOf(decision))];
      var t := s.(approvals := decided);
      var d := s.doc.value;
      if decision == Reject then (t.(doc := Some(d.(status := Draft))), Ok(false))
      else if !AllApproved(decided) then (t, Ok(false))
      else if d.status == DocSent then (t, Ok(true))
      else
        (t.(doc := Some(d.(status := DocSent)), requests := Released(s.requests, d.sequential)), Ok(true))
  }

  // ----- void, expiry, delete, editing a draft -----

  function VoidStep(s: State): (State, Outcome) {
    if s.doc.None? then (s, Err(NotFound))
    else if s.doc.value.status != DocSent && s.doc.value.status != DocDeclined then (s, Err(VoidStatusInvalid))
    else (s.(doc := Some(s.doc.value.(status := Voided))), Ok(true))
  }

  /** getDocumentsNeedingExpiration */
  predicate Due(d: Document, now: int) {
    d.status == DocSent && d.expiresAt.Some? && d.expiresAt.value <= now
  }

  /** The scheduler's expiry of one document. */
  function ExpireDocument(d: Document, now: int): Document {
    if Due(d, now) then d.(status := DocExpired) else d
  }

  function ExpireStep(s: State, now: int): State {
    if s.doc.Some? then s.(doc := Some(ExpireDocument(s.doc.value, now))) else s
  }

  function DeleteStep(s: State): (State, Outcome) {
    if s.doc.None? then (s, Err(NotFound)) else (State(None, [], [], []), Ok(true))
  }

  /** Editing a draft: its fields and its routing mode. */
  function EditStep(s: State, fields: seq<Field>, sequential: bool): (State, Outcome) {
    if s.doc.None? then (s, Err(NotFound))
    else if s.doc.value.status != Draft then (s, Err(DraftOnly))
    else (s.(doc := Some(s.doc.value.(sequential := sequential)), fields := fields), Ok(true))
  }

  // ----- runs -----

  datatype Step =
    | SignBy(i: nat, sub: Submission)
    | ViewBy(i: nat)
    | DeclineBy(i: nat)
    | DelegateBy(i: nat, email: string)
    | Send(sending: Sending)
    | Decide(k: nat, decision: Decision)
    | VoidDocument
    | Expire(now: int)
    | DeleteDocument
    | Edit(fields: seq<Field>, sequential: bool)
    | SetOrganization(active: bool)

  function Next(s: State, step: Step): State {
    match step
    case SignBy(i, sub) => SignStep(s, i, sub).0
    case ViewBy(i) => ViewStep(s, i).0
    case DeclineBy(i) => DeclineStep(s, i).0
    case DelegateBy(i, email) => DelegateStep(s, i, email).0
    case Send(sending) => SendStep(s, sending).0
    case Decide(k, decision) => DecideStep(s, k, decision).0
    case VoidDocument => VoidStep(s).0
    case Expire(now) => ExpireStep(s, now)
    case DeleteDocument => DeleteStep(s).0
    case Edit(fields, sequential) => EditStep(s, fields, sequential).0
    case SetOrganization(active) => if s.doc.Some? then s.(doc := Some(s.doc.value.(orgActive := active))) else s
  }

  function Run(s: State, steps: seq<Step>): State
    decreases |steps|
  {
    if steps == [] then s else Run(Next(s, steps[0]), steps[1..])
  }

  lemma {:induction false} RunConcat(s: State, a: seq<Step>, b: seq<Step>)
    ensures Run(s, a + b) == Run(Run(s, a), b)
    decreases |a|
  {
    if a == [] {
      assert a + b == b;
    } else {
      assert (a + b)[1..] == a[1..] + b;
      RunConcat(Next(s, a[0]), a[1..], b);
    }
  }

  lemma {:induction false} RunAppend(s: State, steps: seq<Step>, last: Step)
    ensures Run(s, steps + [last]) == Next(Run(s, steps), last)
    decreases |steps|
  {
    if steps == [] {
      assert [last][1..] == [];
      assert steps + [last] == [last];
    } else {
      assert (steps + [last])[1..] == steps[1..] + [last];
      RunAppend(Next(s, steps[0]), steps[1..], last);
    }
  }

  /** A document as created: a draft nobody has been asked to sign or approve. */
  predicate Fresh(s: State) {
    s.doc.Some? && s.doc.value.status == Draft && s.requests == [] && s.approvals == []
  }
}

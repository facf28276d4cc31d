/**
 The handlers of the signing workflow, updating the rows of one document in place, step by step:
 server/routers/signature.ts, server/routers/documents.ts, server/routers/internalApproval.ts,
 the REST routes of server/integrations.ts, and the expiry loop of server/scheduler.ts.
 Each is proved to do what its function in Lifecycle says, the theorems being about those.
 */
module Workflow {
  import opened Wrappers
  import opened Rows
  import opened Lifecycle
  import Email

  /** The entries of one signer: one for each field of the slot. */
  method BuildFieldEntries(fields: seq<Field>, slot: nat, signer: string, mark: string) returns (entries: seq<PdfEntry>)
    ensures entries == FieldEntries(fields, slot, signer, mark)
  {
    entries := [];
    var f := 0;
    while f < |fields|
      invariant f <= |fields|
      invariant entries + FieldEntries(fields[f..], slot, signer, mark) == FieldEntries(fields, slot, signer, mark)
    {
      assert fields[f..][1..] == fields[f + 1..];
      if fields[f].signerIndex == slot {
        entries := entries + [PdfEntry(fields[f].clientId, signer, mark)];
      }
      f := f + 1;
    }
  }

  /** The signature entries handed to the PDF library, slot by slot and field by field. */
  method BuildPdfEntries(rows: seq<Request>, fields: seq<Field>) returns (entries: seq<PdfEntry>)
    ensures entries == PdfEntries(rows, fields)
  {
    entries := [];
    var slots := ActiveSlots(rows);
    assert forall a | 0 <= a < |slots| :: slots[a] in slots;
    var k := 0;
    while k < |slots|
      invariant k <= |slots|
      invariant entries + PdfEntriesFrom(rows, fields, slots, k) == PdfEntries(rows, fields)
    {
      var r := rows[slots[k]];
      if r.mark.Some? {
        var own := BuildFieldEntries(fields, k, r.email, r.mark.value);
        assert entries + (own + PdfEntriesFrom(rows, fields, slots, k + 1)) == (entries + own) + PdfEntriesFrom(rows, fields, slots, k + 1);
        entries := entries + own;
      }
      k := k + 1;
    }
  }

  class DocumentRows {
    var doc: Option<Document>
    var requests: seq<Request>
    var approvals: seq<Approval>
    var fields: seq<Field>

    ghost function Contents(): State
      reads this
    {
      State(doc, requests, approvals, fields)
    }

    constructor (document: Document, fields: seq<Field>)
      ensures Contents() == State(Some(document), [], [], fields)
    {
      this.doc, this.requests, this.approvals, this.fields := Some(document), [], [], fields;
    }

    method UpdateStatus(status: DocStatus)
      requires doc.Some?
      modifies this
      ensures Contents() == old(Contents()).(doc := Some(old(doc).value.(status := status)))
    {
      doc := Some(doc.value.(status := status));
    }

    method UpdateRequest(i: nat, status: RequestStatus)
      requires i < |requests|
      modifies this
      ensures Contents() == old(Contents()).(requests := SetStatus(old(requests), i, status))
    {
      requests := requests[i := requests[i].(status := status)];
    }

    method GetByToken(i: nat) returns (o: Outcome)
      modifies this
      ensures (Contents(), o) == ViewStep(old(Contents()), i)
    {
      if doc.None? || i >= |requests| { return Err(NotFound); }
      var d, r := doc.value, requests[i];
      if d.status == Voided || d.status == DocExpired || d.status == DocDeclined { return Err(NotOpen); }
      if !d.orgActive { return Err(OrganizationDisabled); }
      if r.accessCode { return Ok(false); }
      if r.role == SignerRole && r.status == Sent {
        UpdateRequest(i, Viewed);
      }
      return Ok(true);
    }

    /** Does the submission need an image, font or stamp? */
    method NeedsMark(i: nat) returns (needed: bool)
      ensures needed == ImageRequired(Contents(), i)
    {
      var k := SignerIndex(requests, i);
      needed := false;
      var f := 0;
      while f < |fields|
        invariant f <= |fields|
        invariant needed <==> exists g | 0 <= g < f :: (k >= 0 ==> fields[g].signerIndex == k) && NeedsImage(fields[g])
      {
        if (k >= 0 ==> fields[f].signerIndex == k) && NeedsImage(fields[f]) { needed := true; }
        f := f + 1;
      }
    }

    method Sign(i: nat, email: string, mark: Option<string>, now: int, pdfStored: bool) returns (o: Outcome)
      modifies this
      ensures var matches := i < |old(requests)| && Email.EmailsMatch(email, old(requests)[i].email);
              (Contents(), o) == SignStep(old(Contents()), i, Submission(now, matches, mark, pdfStored))
      ensures o.Ok? || o == Err(PdfFailed) ==> i < |old(requests)| && Email.EmailsMatch(email, old(requests)[i].email)
      ensures o.Ok? ==> i < |requests| && requests[i] == old(requests)[i].(status := Signed, mark := mark)
    {
      ghost var before := Contents();
      PastTheChecks(before, i, Submission(now, i < |requests| && Email.EmailsMatch(email, requests[i].email), mark, pdfStored));
      hide SignStep, Email.EmailsMatch;
      o := Submit(i, Submission(now, i < |requests| && Email.EmailsMatch(email, requests[i].email), mark, pdfStored));
    }

    /** The rest of sign, the comparison of the address having been made. */
    method Submit(i: nat, s: Submission) returns (o: Outcome)
      modifies this
      ensures (Contents(), o) == SignStep(old(Contents()), i, s)
    {
      if doc.None? || i >= |requests| { return Err(NotFound); }
      var d, r := doc.value, requests[i];
      if r.status == Signed { return Err(AlreadySigned); }
      if r.status == Declined { return Err(AlreadyDeclined); }
      if r.role == CcRole { return Err(CcCannotSign); }
      if d.status == Completed || d.status == Voided || d.status == DocExpired || d.status == DocDeclined {
        return Err(NotOpen);
      }
      if r.delegatedTo.Some? { return Err(Delegated); }
      if d.expiresAt.Some? && d.expiresAt.value < s.now {
        UpdateStatus(DocExpired);
        return Err(Expired);
      }
      if !d.orgActive { return Err(OrganizationDisabled); }
      if !s.emailMatches { return Err(InvalidEmail); }
      var needed := NeedsMark(i);
      if needed && s.mark.None? { return Err(DataRequired); }
      o := Accept(i, s);
    }

    /** An acceptable submission: mark it, and complete the document or notify the next signer. */
    method Accept(i: nat, s: Submission) returns (o: Outcome)
      requires doc.Some? && i < |requests| && SignRefusal(Contents(), i, s).None?
      modifies this
      ensures (Contents(), o) == SignStep(old(Contents()), i, s)
    {
      var d, r := doc.value, requests[i];
      requests := requests[i := r.(status := Signed, mark := s.mark)];
      var allSigned := AllSignersSigned(requests);
      if allSigned {
        // UPDATE documents SET status = 'completed' WHERE status <> 'completed'
        if doc.value.status == Completed { return Ok(true); }
        doc := Some(doc.value.(status := Completed, completedAt := Some(s.now)));
        var entries := BuildPdfEntries(requests, fields);
        if s.pdfStored {
          doc := Some(doc.value.(signedPdf := Some(entries)));
        } else {
          doc := Some(doc.value.(status := DocSent, completedAt := None));
          requests := requests[i := requests[i].(status := Sent, mark := None)];
          return Err(PdfFailed);
        }
      } else if d.sequential {
        var next := NextPendingSigner(requests);
        if next.Some? && requests[next.value].status == Pending {
          UpdateRequest(next.value, Sent);
        }
      }
      return Ok(allSigned);
    }

    method Decline(i: nat) returns (o: Outcome)
      modifies this
      ensures (Contents(), o) == DeclineStep(old(Contents()), i)
    {
      if doc.None? || i >= |requests| { return Err(NotFound); }
      if requests[i].status == Signed { return Err(AlreadySigned); }
      if requests[i].status == Declined { return Err(AlreadyDeclined); }
      if Closed(doc.value.status) { return Err(NotOpen); }
      if !doc.value.orgActive { return Err(OrganizationDisabled); }
      UpdateRequest(i, Declined);
      UpdateStatus(DocDeclined);
      return Ok(true);
    }

    method Delegate(i: nat, email: string) returns (o: Outcome)
      modifies this
      ensures (Contents(), o) == DelegateStep(old(Contents()), i, email)
    {
      if doc.None? || i >= |requests| { return Err(NotFound); }
      var r := requests[i];
      if r.status == Signed { return Err(AlreadySigned); }
      if r.delegatedTo.Some? { return Err(Delegated); }
      if Closed(doc.value.status) { return Err(NotOpen); }
      if !doc.value.orgActive { return Err(OrganizationDisabled); }
      requests := requests[i := r.(delegatedTo := Some(email))];
      var status := if r.status == Pending then Pending else Sent;
      requests := requests + [Request(email, SignerRole, r.order, status, r.accessCode, None, None)];
      return Ok(true);
    }

    /** Notifies everybody, or with sequential routing the first signer and the cc recipients. */
    method Release(sequential: bool)
      modifies `requests
      ensures requests == Released(old(requests), sequential)
    {
      var first := FirstBy(requests, IsSigner);
      var k := 0;
      while k < |requests|
        invariant k <= |requests| == |old(requests)|
        invariant forall j | 0 <= j < k :: requests[j] == Released(old(requests), sequential)[j]
        invariant forall j | k <= j < |requests| :: requests[j] == old(requests)[j]
      {
        if !sequential || requests[k].role == CcRole || first == Some(k) {
          requests := requests[k := requests[k].(status := Sent)];
        }
        k := k + 1;
      }
    }

    method SendForSignature(p: Sending) returns (o: Outcome)
      modifies this
      ensures (Contents(), o) == SendStep(old(Contents()), p)
    {
      if doc.None? { return Err(NotFound); }
      if doc.value.status != Draft { return Err(DraftOnly); }
      if !doc.value.hasFile { return Err(PdfRequired); }
      var signers := SignerCount(p.recipients);
      if signers == 0 { return Err(SignerRequired); }
      var i := 0;
      while i < signers
        invariant i <= signers
        invariant forall k | 0 <= k < i :: HasFieldFor(fields, k)
      {
        if !HasFieldFor(fields, i) { return Err(SignerFieldRequired); }
        i := i + 1;
      }
      requests := [];
      i := 0;
      while i < |p.recipients|
        invariant i <= |p.recipients|
        invariant requests == NewRequests(p.recipients)[..i]
        invariant doc == old(doc) && approvals == old(approvals) && fields == old(fields)
      {
        requests := requests + [NewRequest(p.recipients[i])];
        i := i + 1;
      }
      assert requests == NewRequests(p.recipients);
      if p.approverOrders != [] {
        approvals := NewApprovals(p.approverOrders);
        doc := Some(doc.value.(status := PendingInternalApproval, sequential := p.sequential, expiresAt := p.expiresAt));
        return Ok(true);
      }
      doc := Some(doc.value.(status := DocSent, sequential := p.sequential, expiresAt := p.expiresAt));
      Release(p.sequential);
      return Ok(false);
    }

    method DecideApproval(k: nat, decision: Decision) returns (o: Outcome)
      modifies this
      ensures (Contents(), o) == DecideStep(old(Contents()), k, decision)
    {
      if k >= |approvals| { return Err(NotFound); }
      if approvals[k].status == StatusOf(decision) { return Ok(false); }
      if approvals[k].status != ApprovalPending { return Err(AlreadyProcessed); }
      if doc.None? { return Err(NotFound); }
      if !doc.value.orgActive { return Err(OrganizationDisabled); }
      approvals := approvals[k := approvals[k].(status := StatusOf(decision))];
      if decision == Reject {
        UpdateStatus(Draft);
        return Ok(false);
      }
      var allApproved := AllApproved(approvals);
      if !allApproved { return Ok(false); }
      if doc.value.status == DocSent { return Ok(true); }
      UpdateStatus(DocSent);
      Release(doc.value.sequential);
      return Ok(true);
    }

    method Void() returns (o: Outcome)
      modifies this
      ensures (Contents(), o) == VoidStep(old(Contents()))
    {
      if doc.None? { return Err(NotFound); }
      if doc.value.status != DocSent && doc.value.status != DocDeclined { return Err(VoidStatusInvalid); }
      UpdateStatus(Voided);
      return Ok(true);
    }

    method Delete() returns (o: Outcome)
      modifies this
      ensures (Contents(), o) == DeleteStep(old(Contents()))
    {
      if doc.None? { return Err(NotFound); }
      approvals := [];
      fields := [];
      requests := [];
      doc := None;
      return Ok(true);
    }
  }

  class DocumentTable {
    var documents: seq<Document>

    constructor (documents: seq<Document>)
      ensures this.documents == documents
    {
      this.documents := documents;
    }

    /** The scheduler's loop: every document due when it starts is expired, no other is touched. */
    method ProcessExpirations(now: int)
      modifies this
      ensures |documents| == |old(documents)|
      ensures forall i | 0 <= i < |documents| :: documents[i] == ExpireDocument(old(documents)[i], now)
      ensures forall i | 0 <= i < |documents| ::
                var d := old(documents)[i];
                documents[i] == if d.status == DocSent && d.expiresAt.Some? && d.expiresAt.value <= now then d.(status := DocExpired) else d
    {
      var k := 0;
      while k < |documents|
        invariant k <= |documents| == |old(documents)|
        invariant forall i | 0 <= i < k :: documents[i] == ExpireDocument(old(documents)[i], now)
        invariant forall i | k <= i < |documents| :: documents[i] == old(documents)[i]
      {
        if Due(documents[k], now) {
          documents := documents[k := documents[k].(status := DocExpired)];
        }
        k := k + 1;
      }
    }
  }
}

/**
 The rows behind one document and the queries of server/db.ts over them.

 A document's signature requests are kept in the order of their auto-increment ids, so a
 position in the table stands for the id, and "ORDER BY order, id" is the order of
 (order, position).
 */
module Rows {
  import opened Wrappers

  datatype Role = SignerRole | CcRole | ApproverRole

  datatype RequestStatus = Pending | Sent | Viewed | Signed | Declined | RequestExpired

  /** `mark` is the drawn image, font or stamp handed in with a signature, if any. */
  datatype Request = Request(
    email: string,
    role: Role,
    order: int,
    status: RequestStatus,
    accessCode: bool,
    delegatedTo: Option<string>,
    mark: Option<string>)

  datatype FieldKind = SignatureField | StampField | DateField | NameField | InitialsField

  datatype Field = Field(clientId: string, signerIndex: int, kind: FieldKind)

  datatype ApprovalStatus = ApprovalPending | Approved | Rejected

  datatype Approval = Approval(order: int, status: ApprovalStatus)

  /** A signer row that still counts: not handed on to a delegate. */
  predicate Active(r: Request) { r.role == SignerRole && r.delegatedTo.None? }

  predicate IsSigner(r: Request) { r.role == SignerRole }

  /** The row has been handed its turn and not yet used it. */
  predicate HasTurn(r: Request) { r.status == Sent || r.status == Viewed }

  predicate AwaitsNotice(r: Request) { Active(r) && (r.status == Pending || r.status == Sent) }

  /** Row i comes before row j under ORDER BY order, id. */
  predicate Before(rows: seq<Request>, i: nat, j: nat)
    requires i < |rows| && j < |rows|
  {
    rows[i].order < rows[j].order || (rows[i].order == rows[j].order && i < j)
  }

  /** checkAllSignersSigned */
  predicate AllSignersSigned(rows: seq<Request>) {
    && (exists i | 0 <= i < |rows| :: Active(rows[i]))
    && forall i | 0 <= i < |rows| && Active(rows[i]) :: rows[i].status == Signed
  }

  /** checkAllApproversApproved */
  predicate AllApproved(approvals: seq<Approval>) {
    forall i | 0 <= i < |approvals| :: approvals[i].status == Approved
  }

  /** The first of the first n rows. */
  function FirstUpTo(rows: seq<Request>, n: nat, p: Request -> bool): (r: Option<nat>)
    requires n <= |rows|
    ensures r.None? ==> forall i | 0 <= i < n :: !p(rows[i])
    ensures r.Some? ==> r.value < n && p(rows[r.value])
    ensures r.Some? ==> forall i | 0 <= i < n && p(rows[i]) && i != r.value :: Before(rows, r.value, i)
  {
    if n == 0 then None
    else
      var best := FirstUpTo(rows, n - 1, p);
      if p(rows[n - 1]) && (best.None? || rows[n - 1].order < rows[best.value].order) then Some(n - 1) else best
  }

  /** The first row satisfying p under ORDER BY order, id LIMIT 1. */
  function FirstBy(rows: seq<Request>, p: Request -> bool): (r: Option<nat>)
    ensures r.None? ==> forall i | 0 <= i < |rows| :: !p(rows[i])
    ensures r.Some? ==> r.value < |rows| && p(rows[r.value])
    ensures r.Some? ==> forall i | 0 <= i < |rows| && p(rows[i]) && i != r.value :: Before(rows, r.value, i)
  {
    FirstUpTo(rows, |rows|, p)
  }

  /** getNextPendingSigner */
  function NextPendingSigner(rows: seq<Request>): Option<nat> {
    FirstBy(rows, AwaitsNotice)
  }

  // ----- getSignatureRequestsByDocument: all rows in (order, id) order -----

  predicate SortedBy(rows: seq<Request>, ids: seq<nat>) {
    && (forall a | 0 <= a < |ids| :: ids[a] < |rows|)
    && forall a, b | 0 <= a < b < |ids| :: Before(rows, ids[a], ids[b])
  }

  /** Puts row position k into an already ordered list of positions. */
  function InsertRow(rows: seq<Request>, ids: seq<nat>, k: nat): (r: seq<nat>)
    requires k < |rows| && k !in ids && SortedBy(rows, ids)
    ensures SortedBy(rows, r)
    ensures forall x :: x in r <==> x in ids || x == k
    ensures |r| == |ids| + 1
  {
    if ids == [] then [k]
    else if Before(rows, k, ids[0]) then [k] + ids
    else
      var rest := InsertRow(rows, ids[1..], k);
      assert forall b | 0 <= b < |rest| :: Before(rows, ids[0], rest[b]) by {
        forall b | 0 <= b < |rest|
          ensures Before(rows, ids[0], rest[b])
        {
          assert rest[b] in rest;
          if rest[b] != k {
            var c :| 0 <= c < |ids[1..]| && ids[1..][c] == rest[b];
            assert rest[b] == ids[c + 1];
          }
        }
      }
      [ids[0]] + rest
  }

  /** The positions satisfying p, among the first n rows, ordered by (order, id). */
  function OrderedUpTo(rows: seq<Request>, n: nat, p: Request -> bool): (r: seq<nat>)
    requires n <= |rows|
    ensures SortedBy(rows, r)
    ensures forall x: nat :: x in r <==> x < n && p(rows[x])
  {
    if n == 0 then []
    else
      var front := OrderedUpTo(rows, n - 1, p);
      if p(rows[n - 1]) then InsertRow(rows, front, n - 1) else front
  }

  /** The rows satisfying p in (order, id) order: a filter over the ordered select. */
  function Ordered(rows: seq<Request>, p: Request -> bool): (r: seq<nat>)
    ensures SortedBy(rows, r)
    ensures forall x: nat :: x in r <==> x < |rows| && p(rows[x])
  {
    OrderedUpTo(rows, |rows|, p)
  }

  /** The signers whose position in this list is the signerIndex of their fields in the PDF. */
  function ActiveSlots(rows: seq<Request>): (r: seq<nat>)
    ensures SortedBy(rows, r)
    ensures forall x: nat :: x in r <==> x < |rows| && Active(rows[x])
  {
    Ordered(rows, Active)
  }

  lemma TailMembers(rows: seq<Request>, a: seq<nat>, x: nat)
    requires SortedBy(rows, a) && a != []
    ensures x in a[1..] <==> x in a && x != a[0]
  {
    if x in a[1..] {
      var i :| 0 <= i < |a[1..]| && a[1..][i] == x;
      assert a[i + 1] == x && Before(rows, a[0], a[i + 1]);
    }
    assert a == [a[0]] + a[1..];
  }

  lemma SameFirst(rows: seq<Request>, a: seq<nat>, b: seq<nat>)
    requires SortedBy(rows, a) && SortedBy(rows, b) && a != [] && b != []
    requires a[0] in b && b[0] in a
    ensures a[0] == b[0]
  {
    var i :| 0 <= i < |b| && b[i] == a[0];
    var j :| 0 <= j < |a| && a[j] == b[0];
    assert i > 0 ==> Before(rows, b[0], b[i]);
    assert j > 0 ==> Before(rows, a[0], a[j]);
  }

  /** An ordered list of positions is determined by its members. */
  lemma {:induction false} OrderedUnique(rows: seq<Request>, a: seq<nat>, b: seq<nat>)
    requires SortedBy(rows, a) && SortedBy(rows, b)
    requires forall x :: x in a <==> x in b
    ensures a == b
  {
    EmptyOrInhabited(a);
    EmptyOrInhabited(b);
    if a != [] && b != [] {
      assert a[0] in a && b[0] in b;
      SameFirst(rows, a, b);
      forall x
        ensures x in a[1..] <==> x in b[1..]
      {
        TailMembers(rows, a, x);
        TailMembers(rows, b, x);
      }
      OrderedUnique(rows, a[1..], b[1..]);
      assert a == [a[0]] + a[1..] && b == [b[0]] + b[1..];
    }
  }

  /** Where x stands in a list of positions, or -1: Array.findIndex. */
  function IndexOf(ids: seq<nat>, x: nat): (k: int)
    ensures x in ids ==> 0 <= k < |ids| && ids[k] == x
    ensures x !in ids ==> k == -1
    ensures forall a | 0 <= a < k :: ids[a] != x
  {
    if ids == [] then -1
    else if ids[0] == x then 0
    else
      var k := IndexOf(ids[1..], x);
      if k == -1 then -1 else k + 1
  }

  // ----- the PDF's signature entries -----

  datatype PdfEntry = PdfEntry(fieldId: string, signer: string, mark: string)

  /** The entries of the slots from k on: every field of a slot whose holder left a mark. */
  function PdfEntriesFrom(rows: seq<Request>, fields: seq<Field>, slots: seq<nat>, k: nat): seq<PdfEntry>
    requires k <= |slots| && forall a | 0 <= a < |slots| :: slots[a] < |rows|
    decreases |slots| - k
  {
    if k == |slots| then []
    else
      var r := rows[slots[k]];
      (if r.mark.Some? then FieldEntries(fields, k, r.email, r.mark.value) else [])
      + PdfEntriesFrom(rows, fields, slots, k + 1)
  }

  function FieldEntries(fields: seq<Field>, slot: nat, signer: string, mark: string): seq<PdfEntry> {
    if fields == [] then []
    else
      (if fields[0].signerIndex == slot then [PdfEntry(fields[0].clientId, signer, mark)] else [])
      + FieldEntries(fields[1..], slot, signer, mark)
  }

  function PdfEntries(rows: seq<Request>, fields: seq<Field>): seq<PdfEntry> {
    PdfEntriesFrom(rows, fields, ActiveSlots(rows), 0)
  }
}

/**
 Sequential routing: when exactly the turn is handed on without being lost or duplicated.

 The handlers trust recipients: sign does not test that the request was sent, delegate does not
 test the role, and deciding an approval notifies the first signer row even if it was handed on.
 TurnGuard says what this trust amounts to, step by step, and is exact: a step keeps the turn if
 and only if it satisfies the guard.
 */
module SequentialRouting {
  import opened Wrappers
  import opened Rows
  import opened Lifecycle

  /** Row c has the turn: the other signers that count have signed, or wait with no smaller order. */
  predicate Current(rows: seq<Request>, c: nat) {
    && c < |rows| && Active(rows[c]) && HasTurn(rows[c])
    && forall i | 0 <= i < |rows| && i != c && Active(rows[i]) ::
         rows[i].status == Signed || (rows[i].status == Pending && rows[c].order <= rows[i].order)
  }

  predicate OneTurn(rows: seq<Request>) { exists c: nat | c < |rows| :: Current(rows, c) }

  /** The rows as the last approval would release them. */
  function OnRelease(rows: seq<Request>): seq<Request> { Released(rows, true) }

  /** The row that a release notifies: the first signer row, handed on or not. */
  function First(rows: seq<Request>): Option<nat> { FirstBy(rows, IsSigner) }

  /** Once decided, approvals cannot release the document. */
  predicate ApprovalsSettled(approvals: seq<Approval>) {
    AllApproved(approvals) || exists k | 0 <= k < |approvals| :: approvals[k].status == Rejected
  }

  predicate NoApprovers(rows: seq<Request>) { forall i | 0 <= i < |rows| :: rows[i].role != ApproverRole }

  /** Somebody has the turn while a sequentially routed document is out, and will have it when it is released. */
  predicate TurnInv(s: State) {
    s.doc.Some? ==>
      && NoApprovers(s.requests)
      && (s.doc.value.status == Draft ==> ApprovalsSettled(s.approvals))
      && (s.doc.value.sequential ==>
            && (s.doc.value.status == DocSent ==> OneTurn(s.requests))
            && (!ApprovalsSettled(s.approvals) ==> OneTurn(OnRelease(s.requests))))
  }

  // ----- what a step must look out for -----

  predicate FirstCounts(rows: seq<Request>) { First(rows).Some? && Active(rows[First(rows).value]) }

  /** Signing row i leaves one turn: it had the turn, or the next in line needs no notice. */
  predicate SignsInTurn(rows: seq<Request>, i: nat, mark: Option<string>)
    requires i < |rows|
  {
    var marked := MarkSigned(rows, i, mark);
    var next := NextPendingSigner(marked);
    HasTurn(rows[i]) || next.None? || marked[next.value].status == Sent
  }

  /** Signing row i before the release leaves one turn for then: who is notified now is who will be notified then. */
  predicate SignsBeforeRelease(rows: seq<Request>, i: nat, mark: Option<string>)
    requires i < |rows|
  {
    var marked := MarkSigned(rows, i, mark);
    var next := NextPendingSigner(marked);
    || next.None? || next == First(rows) || marked[next.value].status == Sent
    || (HasTurn(rows[i]) && First(rows) != Some(i))
  }

  /** The last signature before the release: the release will send row First to its signer again. */
  predicate FinishesBeforeRelease(rows: seq<Request>, i: nat, pdfStored: bool) {
    if pdfStored then FirstCounts(rows) else First(rows) == Some(i) || !FirstCounts(rows)
  }

  /** Handing on row i leaves one turn: it is a signer's, or its delegate will wait behind whoever has the turn. */
  predicate HandsOnInTurn(rows: seq<Request>, i: nat)
    requires i < |rows|
  {
    || rows[i].role == SignerRole
    || (rows[i].status == Pending
        && forall j | 0 <= j < |rows| && Active(rows[j]) && HasTurn(rows[j]) :: rows[j].order <= rows[i].order)
  }

  /**
   Handing on row i before the release. The first signer's row, once handed on, still is the one
   that the release notifies; the row of somebody who is no signer may come first.
   */
  predicate HandsOnBeforeRelease(rows: seq<Request>, i: nat)
    requires i < |rows|
  {
    if rows[i].role == SignerRole then First(rows) == Some(i) ==> rows[i].status != Pending
    else if First(rows).Some? && rows[i].order < rows[First(rows).value].order then
      FirstCounts(rows) && (rows[First(rows).value].status == Pending || rows[First(rows).value].status == Signed)
    else HandsOnInTurn(rows, i)
  }

  predicate DeclinesBeforeRelease(rows: seq<Request>, i: nat)
    requires i < |rows|
  {
    !Active(rows[i]) || First(rows) == Some(i)
  }

  predicate MayDecline(s: State, i: nat) {
    && s.doc.Some? && i < |s.requests| && s.requests[i].status != Signed && s.requests[i].status != Declined
    && !Closed(s.doc.value.status) && s.doc.value.orgActive
  }

  /** What a step must satisfy for the turn to be kept. */
  predicate TurnGuard(s: State, step: Step) {
    s.doc.Some? && s.doc.value.sequential ==>
      var out, pending := s.doc.value.status == DocSent, !ApprovalsSettled(s.approvals);
      match step
      case SignBy(i, sub) =>
        i < |s.requests| && SignRefusal(s, i, sub).None? ==>
          if AllSignersSigned(MarkSigned(s.requests, i, sub.mark)) then
            pending ==> FinishesBeforeRelease(s.requests, i, sub.pdfStored)
          else
            (out ==> SignsInTurn(s.requests, i, sub.mark)) && (pending ==> SignsBeforeRelease(s.requests, i, sub.mark))
      case DelegateBy(i, email) =>
        MayDelegate(s, i) ==> (out ==> HandsOnInTurn(s.requests, i)) && (pending ==> HandsOnBeforeRelease(s.requests, i))
      case DeclineBy(i) =>
        MayDecline(s, i) && pending ==> DeclinesBeforeRelease(s.requests, i)
      case _ => true
  }

  // ----- facts about the first signer row and the release -----

  lemma FirstKept(a: seq<Request>, b: seq<Request>)
    requires |a| == |b| && forall i | 0 <= i < |a| :: a[i].role == b[i].role && a[i].order == b[i].order
    ensures First(a) == First(b)
  {
    var x := First(b);
    if x.Some? {
      forall i | 0 <= i < |a| && i != x.value && IsSigner(a[i]) ensures Before(a, x.value, i) {
        assert IsSigner(b[i]);
      }
      FirstIs(a, x.value);
    } else {
      forall i | 0 <= i < |a| ensures !IsSigner(a[i]) { assert !IsSigner(b[i]); }
    }
  }

  lemma FirstIs(rows: seq<Request>, k: nat)
    requires k < |rows| && IsSigner(rows[k])
    requires forall i | 0 <= i < |rows| && i != k && IsSigner(rows[i]) :: Before(rows, k, i)
    ensures First(rows) == Some(k)
  {
    var g := First(rows);
    assert g.Some? && IsSigner(rows[g.value]);
  }

  /** Who has the turn on release: the first row if it counts, or whoever has it already. */
  lemma TurnOnRelease(rows: seq<Request>, c: nat)
    requires NoApprovers(rows) && Current(OnRelease(rows), c)
    ensures First(rows).Some? && c < |rows| && Active(rows[c])
    ensures FirstCounts(rows) ==> First(rows) == Some(c)
    ensures !FirstCounts(rows) ==> Current(rows, c)
    ensures forall j | 0 <= j < |rows| && j != c && Active(rows[j]) ::
              rows[j].status == Signed || (rows[j].status == Pending && rows[c].order <= rows[j].order)
  {
    var r := OnRelease(rows);
    assert forall j | 0 <= j < |rows| :: Active(r[j]) == Active(rows[j]) && r[j].order == rows[j].order;
    assert IsSigner(rows[c]);
    var f := First(rows).value;
    assert r[f].status == Sent && (Active(r[f]) ==> f == c);
  }

  /** It is enough that the others have signed or wait behind row c, and that c is notified or has the turn. */
  lemma HasTurnOnRelease(rows: seq<Request>, c: nat)
    requires NoApprovers(rows) && c < |rows| && Active(rows[c])
    requires First(rows) == Some(c) || (HasTurn(rows[c]) && !FirstCounts(rows))
    requires forall j | 0 <= j < |rows| && j != c && Active(rows[j]) ::
               rows[j].status == Signed || (rows[j].status == Pending && rows[c].order <= rows[j].order)
    ensures OneTurn(OnRelease(rows))
  {
    var r := OnRelease(rows);
    assert forall j | 0 <= j < |rows| && Active(rows[j]) && First(rows) != Some(j) :: r[j] == rows[j];
    assert Current(r, c);
  }

  // ----- signing -----

  /** After row i signs and others remain, exactly this keeps one turn while the document is out. */
  lemma SignKeepsTurnIff(rows: seq<Request>, i: nat, mark: Option<string>)
    requires OneTurn(rows) && i < |rows| && Active(rows[i]) && rows[i].status != Signed
    requires !AllSignersSigned(MarkSigned(rows, i, mark))
    ensures OneTurn(NotifyNext(MarkSigned(rows, i, mark))) <==> SignsInTurn(rows, i, mark)
  {
    var c: nat :| c < |rows| && Current(rows, c);
    var marked := MarkSigned(rows, i, mark);
    var after := NotifyNext(marked);
    if i == c {
      TurnPasses(rows, c, mark);
    } else if SignsInTurn(rows, i, mark) {
      assert after == marked;
      assert Current(after, c);
    } else {
      var n := NextPendingSigner(marked).value;
      assert after[n].status == Sent && Active(after[n]);
      assert after[c] == rows[c];
      NotOneTurn(after, n, c);
    }
  }

  /** Row a has the turn, and row b neither has signed nor waits behind it. */
  lemma NotOneTurn(rows: seq<Request>, a: nat, b: nat)
    requires a < |rows| && b < |rows| && a != b && Active(rows[a]) && Active(rows[b]) && HasTurn(rows[a])
    requires rows[b].status != Signed && (rows[b].status == Pending ==> rows[b].order < rows[a].order)
    ensures !OneTurn(rows)
  {
    forall c: nat | c < |rows| ensures !Current(rows, c) {
      if c == a { assert rows[b].status != Signed; } else { assert HasTurn(rows[a]); }
    }
  }

  /** The first of those who wait comes next, and everybody else waits behind. */
  lemma NextInLine(rows: seq<Request>, c: nat, mark: Option<string>)
    requires c < |rows| && Active(rows[c]) && !AllSignersSigned(MarkSigned(rows, c, mark))
    requires forall j | 0 <= j < |rows| && j != c && Active(rows[j]) :: rows[j].status == Signed || rows[j].status == Pending
    ensures var marked := MarkSigned(rows, c, mark);
            var next := NextPendingSigner(marked);
            && next.Some? && next.value != c && rows[next.value].status == Pending && Active(rows[next.value])
            && forall j | 0 <= j < |rows| && j != next.value && Active(rows[j]) ::
                 marked[j].status == Signed || (marked[j].status == Pending && rows[next.value].order <= rows[j].order)
  {
    var marked := MarkSigned(rows, c, mark);
    assert Active(marked[c]);
    var w :| 0 <= w < |marked| && Active(marked[w]) && marked[w].status != Signed;
    assert marked[w] == rows[w] && AwaitsNotice(marked[w]);
    var n := NextPendingSigner(marked).value;
    assert marked[n] == rows[n];
    forall j | 0 <= j < |rows| && j != n && Active(rows[j])
      ensures marked[j].status == Signed || (marked[j].status == Pending && rows[n].order <= rows[j].order)
    {
      if j != c && rows[j].status == Pending {
        assert AwaitsNotice(marked[j]);
        assert Before(marked, n, j);
      }
    }
  }

  /** After the signer with the turn signs and others remain, the next in line gets it. */
  lemma TurnPasses(rows: seq<Request>, c: nat, mark: Option<string>)
    requires Current(rows, c) && !AllSignersSigned(MarkSigned(rows, c, mark))
    ensures OneTurn(NotifyNext(MarkSigned(rows, c, mark)))
  {
    NextInLine(rows, c, mark);
    var marked := MarkSigned(rows, c, mark);
    assert Current(NotifyNext(marked), NextPendingSigner(marked).value);
  }

  /** When storing the PDF fails, the last signer gets the turn back. */
  lemma RollbackReturnsTheTurn(rows: seq<Request>, i: nat)
    requires AllSignersSigned(rows) && i < |rows| && Active(rows[i])
    ensures OneTurn(rows[i := rows[i].(status := Sent, mark := None)])
  {
    assert Current(rows[i := rows[i].(status := Sent, mark := None)], i);
  }

  // ----- signing before the release -----

  lemma NotBoth(rows: seq<Request>, a: nat, b: nat)
    requires NoApprovers(rows) && a < |rows| && b < |rows| && a != b && Active(rows[a]) && Active(rows[b])
    requires First(rows) == Some(a) || HasTurn(rows[a])
    requires HasTurn(rows[b])
    ensures !OneTurn(OnRelease(rows))
  {
    var r := OnRelease(rows);
    assert Active(r[a]) && HasTurn(r[a]) && Active(r[b]) && HasTurn(r[b]);
    NotOneTurn(r, a, b);
  }

  lemma NobodyOnRelease(rows: seq<Request>)
    requires NoApprovers(rows) && !FirstCounts(rows)
    requires forall j | 0 <= j < |rows| && Active(rows[j]) :: !HasTurn(rows[j])
    ensures !OneTurn(OnRelease(rows))
  {
    var r := OnRelease(rows);
    forall c: nat | c < |r| ensures !Current(r, c) {
      assert Active(r[c]) ==> Active(rows[c]) && r[c] == rows[c];
    }
  }

  /** Others have signed, or wait with no smaller order than row c. */
  predicate OthersBehind(rows: seq<Request>, c: nat)
    requires c < |rows|
  {
    forall j | 0 <= j < |rows| && j != c && Active(rows[j]) ::
      rows[j].status == Signed || (rows[j].status == Pending && rows[c].order <= rows[j].order)
  }

  lemma OwnSignatureOnRelease(rows: seq<Request>, c: nat, mark: Option<string>)
    requires NoApprovers(rows) && c < |rows| && Active(rows[c]) && OthersBehind(rows, c)
    requires !AllSignersSigned(MarkSigned(rows, c, mark)) && First(rows).Some? && (FirstCounts(rows) ==> First(rows) == Some(c))
    ensures OneTurn(OnRelease(NotifyNext(MarkSigned(rows, c, mark)))) <==> !FirstCounts(rows)
  {
    NextInLine(rows, c, mark);
    var marked := MarkSigned(rows, c, mark);
    var n := NextPendingSigner(marked).value;
    var after := NotifyNext(marked);
    FirstKept(rows, after);
    assert after == marked[n := marked[n].(status := Sent)];
    if FirstCounts(rows) {
      NotBoth(after, c, n);
    } else {
      HasTurnOnRelease(after, n);
    }
  }

  lemma OwnSignatureGuard(rows: seq<Request>, c: nat, mark: Option<string>)
    requires c < |rows| && Active(rows[c]) && OthersBehind(rows, c) && !AllSignersSigned(MarkSigned(rows, c, mark))
    requires if FirstCounts(rows) then First(rows) == Some(c) else HasTurn(rows[c])
    ensures SignsBeforeRelease(rows, c, mark) <==> !FirstCounts(rows)
  {
    NextInLine(rows, c, mark);
    var marked := MarkSigned(rows, c, mark);
    assert marked[NextPendingSigner(marked).value].status == Pending;
  }

  lemma OtherSignatureOnRelease(rows: seq<Request>, c: nat, i: nat, mark: Option<string>)
    requires NoApprovers(rows) && c < |rows| && Active(rows[c]) && OthersBehind(rows, c)
    requires First(rows) == Some(c) || (HasTurn(rows[c]) && !FirstCounts(rows))
    requires i < |rows| && i != c && Active(rows[i]) && rows[i].status == Pending
    ensures var marked := MarkSigned(rows, i, mark);
            var next := NextPendingSigner(marked);
            OneTurn(OnRelease(NotifyNext(marked))) <==> next.None? || next == First(rows) || marked[next.value].status == Sent
  {
    var marked := MarkSigned(rows, i, mark);
    var next := NextPendingSigner(marked);
    var after := NotifyNext(marked);
    FirstKept(rows, after);
    assert forall j | 0 <= j < |rows| && j != i && next != Some(j) :: after[j] == rows[j];
    if next.None? || next == First(rows) || marked[next.value].status == Sent {
      assert next.Some? ==> next.value == c;
      HasTurnOnRelease(after, c);
    } else {
      assert next.value != i && next.value != c;
      NotBoth(after, c, next.value);
    }
  }

  lemma SignKeepsReleaseIff(rows: seq<Request>, i: nat, mark: Option<string>)
    requires NoApprovers(rows) && OneTurn(OnRelease(rows)) && i < |rows| && Active(rows[i])
    requires rows[i].status != Signed && rows[i].status != Declined && !AllSignersSigned(MarkSigned(rows, i, mark))
    ensures OneTurn(OnRelease(NotifyNext(MarkSigned(rows, i, mark)))) <==> SignsBeforeRelease(rows, i, mark)
  {
    var c: nat :| c < |rows| && Current(OnRelease(rows), c);
    TurnOnRelease(rows, c);
    if i == c {
      OwnSignatureGuard(rows, c, mark);
      OwnSignatureOnRelease(rows, c, mark);
    } else {
      OtherSignatureOnRelease(rows, c, i, mark);
    }
  }

  /** Everybody but row i has signed. */
  lemma LastOnRelease(rows: seq<Request>, after: seq<Request>, i: nat)
    requires NoApprovers(after) && |after| == |rows| && i < |rows| && Active(after[i]) && HasTurn(after[i])
    requires First(after) == First(rows) && First(rows).Some? && (FirstCounts(after) <==> FirstCounts(rows))
    requires forall j | 0 <= j < |after| && j != i && Active(after[j]) :: after[j].status == Signed
    ensures OneTurn(OnRelease(after)) <==> First(rows) == Some(i) || !FirstCounts(rows)
  {
    if First(rows) == Some(i) || !FirstCounts(rows) {
      HasTurnOnRelease(after, i);
    } else {
      NotBoth(after, First(rows).value, i);
    }
  }

  lemma AllSignedOnRelease(rows: seq<Request>)
    requires NoApprovers(rows) && AllSignersSigned(rows)
    ensures OneTurn(OnRelease(rows)) <==> FirstCounts(rows)
  {
    if FirstCounts(rows) { HasTurnOnRelease(rows, First(rows).value); } else { NobodyOnRelease(rows); }
  }

  lemma FinishKeepsReleaseIff(rows: seq<Request>, i: nat, mark: Option<string>, pdfStored: bool)
    requires NoApprovers(rows) && i < |rows| && Active(rows[i]) && AllSignersSigned(MarkSigned(rows, i, mark))
    ensures var marked := MarkSigned(rows, i, mark);
            var after := if pdfStored then marked else marked[i := marked[i].(status := Sent, mark := None)];
            OneTurn(OnRelease(after)) <==> FinishesBeforeRelease(rows, i, pdfStored)
  {
    var marked := MarkSigned(rows, i, mark);
    FirstKept(rows, marked);
    assert IsSigner(rows[i]);
    if pdfStored {
      AllSignedOnRelease(marked);
    } else {
      var after := marked[i := marked[i].(status := Sent, mark := None)];
      FirstKept(rows, after);
      LastOnRelease(rows, after, i);
    }
  }

  // ----- handing on and declining -----

  lemma HandOnKeepsTurnIff(rows: seq<Request>, i: nat, email: string)
    requires NoApprovers(rows) && OneTurn(rows) && i < |rows| && rows[i].delegatedTo.None? && rows[i].status != Signed
    ensures OneTurn(HandOn(rows, i, email)) <==> HandsOnInTurn(rows, i)
  {
    var c: nat :| c < |rows| && Current(rows, c);
    var after, n := HandOn(rows, i, email), |rows|;
    assert forall j | 0 <= j < n && j != i :: after[j] == rows[j];
    if i == c {
      assert Current(after, n);
    } else if HandsOnInTurn(rows, i) {
      assert Current(after, c);
    } else {
      NotOneTurn(after, c, n);
    }
  }

  /** The delegate's row is the last, so it comes first only if its order is smaller than all signers'. */
  lemma FirstAfterHandOn(rows: seq<Request>, i: nat, email: string)
    requires i < |rows| && First(rows).Some?
    ensures var f := First(rows).value;
            First(HandOn(rows, i, email)) == if rows[i].order < rows[f].order then Some(|rows|) else Some(f)
  {
    var after, n, f := HandOn(rows, i, email), |rows|, First(rows).value;
    assert forall j | 0 <= j < n :: after[j].role == rows[j].role && after[j].order == rows[j].order;
    var first := if rows[i].order < rows[f].order then n else f;
    forall j | 0 <= j < |after| && j != first && IsSigner(after[j])
      ensures Before(after, first, j)
    {
      if j < n { assert IsSigner(rows[j]) && (j == f || Before(rows, f, j)); }
    }
    FirstIs(after, first);
  }

  lemma HandOnKeepsReleaseIff(rows: seq<Request>, i: nat, email: string)
    requires NoApprovers(rows) && OneTurn(OnRelease(rows)) && i < |rows| && rows[i].delegatedTo.None? && rows[i].status != Signed
    ensures OneTurn(OnRelease(HandOn(rows, i, email))) <==> HandsOnBeforeRelease(rows, i)
  {
    var c: nat :| c < |rows| && Current(OnRelease(rows), c);
    TurnOnRelease(rows, c);
    if rows[i].role == SignerRole {
      SignerHandsOnBeforeRelease(rows, c, i, email);
    } else if rows[i].order < rows[First(rows).value].order {
      EarlierOneHandsOnBeforeRelease(rows, c, i, email);
    } else {
      LaterOneHandsOnBeforeRelease(rows, c, i, email);
    }
  }

  lemma SignerHandsOnBeforeRelease(rows: seq<Request>, c: nat, i: nat, email: string)
    requires NoApprovers(rows) && c < |rows| && Active(rows[c]) && OthersBehind(rows, c)
    requires First(rows) == Some(c) || (First(rows).Some? && HasTurn(rows[c]) && !FirstCounts(rows))
    requires i < |rows| && Active(rows[i]) && rows[i].status != Signed
    ensures OneTurn(OnRelease(HandOn(rows, i, email))) <==> (First(rows) == Some(i) ==> rows[i].status != Pending)
  {
    var after, n := HandOn(rows, i, email), |rows|;
    FirstAfterHandOn(rows, i, email);
    assert rows[First(rows).value].order <= rows[i].order by { assert IsSigner(rows[i]); }
    assert forall j | 0 <= j < n && j != i :: after[j] == rows[j];
    if i != c {
      HasTurnOnRelease(after, c);
    } else if after[n].status == Sent {
      HasTurnOnRelease(after, n);
    } else {
      NobodyOnRelease(after);
    }
  }

  lemma EarlierOneHandsOnBeforeRelease(rows: seq<Request>, c: nat, i: nat, email: string)
    requires NoApprovers(rows) && c < |rows| && Active(rows[c]) && OthersBehind(rows, c)
    requires First(rows) == Some(c) || (First(rows).Some? && HasTurn(rows[c]) && !FirstCounts(rows))
    requires i < |rows| && rows[i].role != SignerRole && rows[i].order < rows[First(rows).value].order
    ensures OneTurn(OnRelease(HandOn(rows, i, email)))
       <==> FirstCounts(rows) && (rows[First(rows).value].status == Pending || rows[First(rows).value].status == Signed)
  {
    var after, n, f := HandOn(rows, i, email), |rows|, First(rows).value;
    FirstAfterHandOn(rows, i, email);
    assert forall j | 0 <= j < n && j != i :: after[j] == rows[j];
    assert forall j | 0 <= j < n && Active(rows[j]) :: rows[f].order <= rows[j].order by {
      forall j | 0 <= j < n && Active(rows[j]) ensures rows[f].order <= rows[j].order { assert IsSigner(rows[j]); }
    }
    if FirstCounts(rows) && (rows[f].status == Pending || rows[f].status == Signed) {
      HasTurnOnRelease(after, n);
    } else {
      var r := OnRelease(after);
      assert r[n].status == Sent && r[c] == rows[c];
      NotOneTurn(r, n, c);
    }
  }

  lemma LaterOneHandsOnBeforeRelease(rows: seq<Request>, c: nat, i: nat, email: string)
    requires NoApprovers(rows) && c < |rows| && Active(rows[c]) && OthersBehind(rows, c)
    requires First(rows) == Some(c) || (First(rows).Some? && HasTurn(rows[c]) && !FirstCounts(rows))
    requires i < |rows| && rows[i].role != SignerRole && rows[i].order >= rows[First(rows).value].order
    ensures OneTurn(OnRelease(HandOn(rows, i, email))) <==> HandsOnInTurn(rows, i)
  {
    var after, n := HandOn(rows, i, email), |rows|;
    FirstAfterHandOn(rows, i, email);
    assert forall j | 0 <= j < n && j != i :: after[j] == rows[j];
    if HandsOnInTurn(rows, i) {
      HasTurnOnRelease(after, c);
    } else {
      var r := OnRelease(after);
      assert HasTurn(r[c]) && Active(r[c]) && r[n] == after[n];
      NotOneTurn(r, c, n);
    }
  }

  lemma DeclineKeepsReleaseIff(rows: seq<Request>, i: nat)
    requires NoApprovers(rows) && OneTurn(OnRelease(rows)) && i < |rows| && rows[i].status != Signed && rows[i].status != Declined
    ensures OneTurn(OnRelease(SetStatus(rows, i, Declined))) <==> DeclinesBeforeRelease(rows, i)
  {
    var c: nat :| c < |rows| && Current(OnRelease(rows), c);
    TurnOnRelease(rows, c);
    var after := SetStatus(rows, i, Declined);
    FirstKept(rows, after);
    assert forall j | 0 <= j < |rows| && j != i :: after[j] == rows[j];
    if DeclinesBeforeRelease(rows, i) {
      HasTurnOnRelease(after, c);
    } else {
      assert Active(after[i]) && First(after) != Some(i);
      DeclinedHolds(OnRelease(after), i);
    }
  }

  lemma DeclinedHolds(rows: seq<Request>, i: nat)
    requires i < |rows| && Active(rows[i]) && rows[i].status == Declined
    ensures !OneTurn(rows)
  {
    forall d: nat | d < |rows| ensures !Current(rows, d) {
      if d != i { assert rows[i].status != Signed; }
    }
  }

  // ----- the steps -----

  /** What the invariant says of a document that is routed sequentially and no draft. */
  predicate TurnOf(rows: seq<Request>, approvals: seq<Approval>, status: DocStatus) {
    && NoApprovers(rows) && status != Draft
    && (status == DocSent ==> OneTurn(rows))
    && (!ApprovalsSettled(approvals) ==> OneTurn(OnRelease(rows)))
  }

  lemma StoredTurnIff(s: State, i: nat, sub: Submission)
    requires TurnInv(s) && s.doc.Some? && s.doc.value.sequential && i < |s.requests| && SignRefusal(s, i, sub).None?
    requires AllSignersSigned(MarkSigned(s.requests, i, sub.mark)) && sub.pdfStored
    ensures TurnInv(SignStep(s, i, sub).0) <==> TurnGuard(s, SignBy(i, sub))
  {
    var marked := MarkSigned(s.requests, i, sub.mark);
    assert Active(s.requests[i]) && NoApprovers(marked);
    if !ApprovalsSettled(s.approvals) { FinishKeepsReleaseIff(s.requests, i, sub.mark, true); }
    assert TurnInv(SignStep(s, i, sub).0) <==> TurnOf(marked, s.approvals, Completed);
  }

  lemma RollbackTurnIff(s: State, i: nat, sub: Submission)
    requires TurnInv(s) && s.doc.Some? && s.doc.value.sequential && i < |s.requests| && SignRefusal(s, i, sub).None?
    requires AllSignersSigned(MarkSigned(s.requests, i, sub.mark)) && !sub.pdfStored
    ensures TurnInv(SignStep(s, i, sub).0) <==> TurnGuard(s, SignBy(i, sub))
  {
    var marked := MarkSigned(s.requests, i, sub.mark);
    var after := marked[i := marked[i].(status := Sent, mark := None)];
    assert Active(s.requests[i]) && NoApprovers(after);
    RollbackReturnsTheTurn(marked, i);
    if !ApprovalsSettled(s.approvals) { FinishKeepsReleaseIff(s.requests, i, sub.mark, false); }
    assert TurnInv(SignStep(s, i, sub).0) <==> TurnOf(after, s.approvals, DocSent);
  }

  lemma PassTurnIff(s: State, i: nat, sub: Submission)
    requires TurnInv(s) && s.doc.Some? && s.doc.value.sequential && i < |s.requests| && SignRefusal(s, i, sub).None?
    requires !AllSignersSigned(MarkSigned(s.requests, i, sub.mark))
    ensures TurnInv(SignStep(s, i, sub).0) <==> TurnGuard(s, SignBy(i, sub))
  {
    assert Active(s.requests[i]);
    if s.doc.value.status == DocSent { SignKeepsTurnIff(s.requests, i, sub.mark); }
    if !ApprovalsSettled(s.approvals) { SignKeepsReleaseIff(s.requests, i, sub.mark); }
  }

  lemma SignTurnIff(s: State, i: nat, sub: Submission)
    requires TurnInv(s)
    ensures TurnInv(SignStep(s, i, sub).0) <==> TurnGuard(s, SignBy(i, sub))
  {
    if s.doc.Some? && i < |s.requests| && SignRefusal(s, i, sub).None? && s.doc.value.sequential {
      if AllSignersSigned(MarkSigned(s.requests, i, sub.mark)) {
        if sub.pdfStored { StoredTurnIff(s, i, sub); } else { RollbackTurnIff(s, i, sub); }
      } else {
        PassTurnIff(s, i, sub);
      }
    }
  }

  lemma DelegateTurnIff(s: State, i: nat, email: string)
    requires TurnInv(s)
    ensures TurnInv(DelegateStep(s, i, email).0) <==> TurnGuard(s, DelegateBy(i, email))
  {
    if MayDelegate(s, i) && s.doc.value.sequential {
      if s.doc.value.status == DocSent { HandOnKeepsTurnIff(s.requests, i, email); }
      if !ApprovalsSettled(s.approvals) { HandOnKeepsReleaseIff(s.requests, i, email); }
    }
  }

  lemma DeclineTurnIff(s: State, i: nat)
    requires TurnInv(s)
    ensures TurnInv(DeclineStep(s, i).0) <==> TurnGuard(s, DeclineBy(i))
  {
    if MayDecline(s, i) && s.doc.value.sequential && !ApprovalsSettled(s.approvals) { DeclineKeepsReleaseIff(s.requests, i); }
  }

  lemma OpeningKeepsTurn(rows: seq<Request>, i: nat)
    requires NoApprovers(rows) && i < |rows| && rows[i].status == Sent
    ensures OneTurn(rows) ==> OneTurn(SetStatus(rows, i, Viewed))
    ensures OneTurn(OnRelease(rows)) ==> OneTurn(OnRelease(SetStatus(rows, i, Viewed)))
  {
    var after := SetStatus(rows, i, Viewed);
    if c: nat :| c < |rows| && Current(rows, c) { assert Current(after, c); }
    OpeningKeepsRelease(rows, i);
  }

  lemma OpeningKeepsRelease(rows: seq<Request>, i: nat)
    requires NoApprovers(rows) && i < |rows| && rows[i].status == Sent
    ensures OneTurn(OnRelease(rows)) ==> OneTurn(OnRelease(SetStatus(rows, i, Viewed)))
  {
    hide Released;
    var after := SetStatus(rows, i, Viewed);
    FirstKept(rows, after);
    if c: nat :| c < |rows| && Current(OnRelease(rows), c) {
      TurnOnRelease(rows, c);
      HasTurnOnRelease(after, c);
    }
  }

  lemma ViewKeepsTurn(s: State, i: nat)
    requires TurnInv(s)
    ensures TurnInv(ViewStep(s, i).0)
  {
    if i < |s.requests| && s.requests[i].status == Sent && s.doc.Some? { OpeningKeepsTurn(s.requests, i); }
  }

  /** Nobody has been notified, and there is a signer to notify. */
  predicate Unreleased(rows: seq<Request>) {
    && (forall i | 0 <= i < |rows| :: rows[i].status == Pending && rows[i].delegatedTo.None?)
    && exists i | 0 <= i < |rows| :: IsSigner(rows[i])
  }

  /** Sending, with or without approval, gives the turn to the first signer. */
  lemma ReleaseStartsTheTurn(rows: seq<Request>)
    requires Unreleased(rows)
    ensures OneTurn(OnRelease(rows)) && FirstCounts(rows) && Current(OnRelease(rows), First(rows).value)
  {
    var c := First(rows).value;
    var out := OnRelease(rows);
    forall i | 0 <= i < |out| && i != c && Active(out[i])
      ensures out[i].status == Pending && out[c].order <= out[i].order
    {
      assert Before(rows, c, i);
    }
    assert Current(out, c);
  }

  lemma {:induction false} CountedSignerExists(rs: seq<Recipient>)
    requires SignerCount(rs) > 0
    ensures exists i | 0 <= i < |rs| :: rs[i].isSigner
  {
    if !rs[0].isSigner {
      CountedSignerExists(rs[1..]);
      var i :| 0 <= i < |rs[1..]| && rs[1..][i].isSigner;
      assert rs[i + 1].isSigner;
    }
  }

  lemma NewRowsUnreleased(rs: seq<Recipient>)
    requires SignerCount(rs) > 0
    ensures Unreleased(NewRequests(rs))
  {
    CountedSignerExists(rs);
    var i :| 0 <= i < |rs| && rs[i].isSigner;
    assert IsSigner(NewRequests(rs)[i]);
  }

  lemma NewRowsHaveNoApprovers(rs: seq<Recipient>, sequential: bool)
    ensures NoApprovers(NewRequests(rs)) && NoApprovers(Released(NewRequests(rs), sequential))
  {
    var rows := NewRequests(rs);
    assert forall i | 0 <= i < |rows| :: rows[i].role != ApproverRole;
    assert forall i | 0 <= i < |rows| :: Released(rows, sequential)[i].role == rows[i].role;
  }

  lemma SendKeepsTurn(s: State, p: Sending)
    requires TurnInv(s)
    ensures TurnInv(SendStep(s, p).0)
  {
    if SignerCount(p.recipients) > 0 {
      var rows := NewRequests(p.recipients);
      NewRowsHaveNoApprovers(p.recipients, p.sequential);
      assert OneTurn(OnRelease(rows)) by {
        NewRowsUnreleased(p.recipients);
        ReleaseStartsTheTurn(rows);
      }
    }
  }

  lemma DecideKeepsTurn(s: State, k: nat, decision: Decision)
    requires TurnInv(s)
    ensures TurnInv(DecideStep(s, k, decision).0)
  {
    if s.doc.Some? && k < |s.approvals| && s.approvals[k].status == ApprovalPending && s.doc.value.orgActive {
      var decided := s.approvals[k := s.approvals[k].(status := StatusOf(decision))];
      assert decided[k].status == StatusOf(decision);
      if decision == Approve && !AllApproved(decided) {
        assert !AllApproved(s.approvals);
        if j :| 0 <= j < |s.approvals| && s.approvals[j].status == Rejected { assert decided[j].status == Rejected; }
      } else if decision == Approve {
        assert forall j | 0 <= j < |s.approvals| && j != k :: decided[j] == s.approvals[j];
        assert !ApprovalsSettled(s.approvals);
      }
    }
  }

  /** A step keeps the turn, now and on release, if and only if it satisfies its guard. */
  lemma TurnKeptIff(s: State, step: Step)
    requires TurnInv(s)
    ensures TurnInv(Next(s, step)) <==> TurnGuard(s, step)
  {
    match step
    case SignBy(i, sub) => SignTurnIff(s, i, sub);
    case ViewBy(i) => ViewKeepsTurn(s, i);
    case DeclineBy(i) => DeclineTurnIff(s, i);
    case DelegateBy(i, email) => DelegateTurnIff(s, i, email);
    case Send(p) => SendKeepsTurn(s, p);
    case Decide(k, decision) => DecideKeepsTurn(s, k, decision);
    case _ =>
  }

  // ----- runs -----

  predicate GuardedRun(s: State, steps: seq<Step>)
    decreases |steps|
  {
    steps == [] || (TurnGuard(s, steps[0]) && GuardedRun(Next(s, steps[0]), steps[1..]))
  }

  lemma {:induction false} RunKeepsTurn(s: State, steps: seq<Step>)
    requires TurnInv(s) && GuardedRun(s, steps)
    ensures TurnInv(Run(s, steps))
    decreases |steps|
  {
    if steps != [] {
      TurnKeptIff(s, steps[0]);
      RunKeepsTurn(Next(s, steps[0]), steps[1..]);
    }
  }

  /**
   Exactly one signer that counts has the turn, all of smaller order have signed, and all others
   have signed or wait with no smaller order.
   */
  predicate ExactlyOne(rows: seq<Request>) {
    exists c: nat | c < |rows| ::
      && Active(rows[c]) && HasTurn(rows[c])
      && (forall i | 0 <= i < |rows| && Active(rows[i]) && HasTurn(rows[i]) :: i == c)
      && (forall i | 0 <= i < |rows| && Active(rows[i]) && rows[i].order < rows[c].order :: rows[i].status == Signed)
      && (forall i | 0 <= i < |rows| && Active(rows[i]) && rows[i].status == Pending :: rows[c].order <= rows[i].order)
      && (forall i | 0 <= i < |rows| && Active(rows[i]) && i != c :: rows[i].status == Signed || rows[i].status == Pending)
  }

  lemma OneTurnIsExactlyOne(rows: seq<Request>)
    ensures OneTurn(rows) <==> ExactlyOne(rows)
  {
    if c: nat :| c < |rows| && Current(rows, c) { assert Active(rows[c]) && HasTurn(rows[c]); }
    if ExactlyOne(rows) {
      var c: nat :| c < |rows| && Active(rows[c]) && HasTurn(rows[c])
        && (forall i | 0 <= i < |rows| && Active(rows[i]) && rows[i].order < rows[c].order :: rows[i].status == Signed)
        && (forall i | 0 <= i < |rows| && Active(rows[i]) && rows[i].status == Pending :: rows[c].order <= rows[i].order)
        && (forall i | 0 <= i < |rows| && Active(rows[i]) && i != c :: rows[i].status == Signed || rows[i].status == Pending);
      assert Current(rows, c);
    }
  }

  /** In every guarded run from a new draft, a sequentially routed document that is out has exactly one turn. */
  lemma ExactlyOneTurn(s: State, steps: seq<Step>)
    requires Fresh(s) && GuardedRun(s, steps)
    requires var t := Run(s, steps); t.doc.Some? && t.doc.value.status == DocSent && t.doc.value.sequential
    ensures ExactlyOne(Run(s, steps).requests)
  {
    RunKeepsTurn(s, steps);
    OneTurnIsExactlyOne(Run(s, steps).requests);
  }

  // ----- no guard can be dropped -----

  /** Approvals that are not settled can still release the document: everybody who has not decided approves. */
  lemma {:induction false} ApprovalsRelease(s: State, n: nat) returns (steps: seq<Step>)
    requires s.doc.Some? && s.doc.value.orgActive && s.doc.value.status != DocSent && !ApprovalsSettled(s.approvals)
    requires n <= |s.approvals| && forall k | n <= k < |s.approvals| :: s.approvals[k].status == Approved
    ensures var t := Run(s, steps);
            && t.doc == Some(s.doc.value.(status := DocSent)) && t.fields == s.fields
            && t.requests == Released(s.requests, s.doc.value.sequential)
    decreases n
  {
    assert n > 0;
    var k := n - 1;
    if s.approvals[k].status == Approved {
      steps := ApprovalsRelease(s, k);
    } else {
      var t := Next(s, Decide(k, Approve));
      assert t.approvals[k].status == Approved && forall j | 0 <= j < |s.approvals| && j != k :: t.approvals[j] == s.approvals[j];
      if AllApproved(t.approvals) {
        steps := [Decide(k, Approve)];
        assert Run(s, steps) == Run(t, steps[1..]) == t;
      } else {
        var rest := ApprovalsRelease(t, k);
        steps := [Decide(k, Approve)] + rest;
        assert steps[1..] == rest;
      }
    }
  }

  /** From anywhere, voiding a document that is out and enabling the organization first. */
  lemma ReleaseFollows(s: State) returns (steps: seq<Step>)
    requires s.doc.Some? && !ApprovalsSettled(s.approvals)
    ensures var t := Run(s, steps);
            && t.doc == Some(s.doc.value.(status := DocSent, orgActive := true)) && t.fields == s.fields
            && t.requests == Released(s.requests, s.doc.value.sequential)
  {
    var enabled := Next(s, SetOrganization(true));
    var closed := if s.doc.value.status == DocSent then Next(enabled, VoidDocument) else enabled;
    var rest := ApprovalsRelease(closed, |s.approvals|);
    if s.doc.value.status == DocSent {
      steps := [SetOrganization(true), VoidDocument] + rest;
      assert steps[1..][1..] == rest && steps[1..][0] == VoidDocument;
    } else {
      steps := [SetOrganization(true)] + rest;
      assert steps[1..] == rest;
    }
  }

  /** Only recipients' steps have guards, and these keep the rest of the invariant. */
  lemma RecipientsKeepTheRest(s: State, step: Step)
    requires s.doc.Some? && s.doc.value.sequential && NoApprovers(s.requests)
    requires s.doc.value.status == Draft ==> ApprovalsSettled(s.approvals)
    requires step.SignBy? || step.DelegateBy? || step.DeclineBy?
    ensures var t := Next(s, step);
            && t.doc.Some? && t.doc.value.sequential && NoApprovers(t.requests)
            && (t.doc.value.status == Draft ==> ApprovalsSettled(t.approvals))
  {
    hide PdfEntries, AllSignersSigned, ApprovalsSettled, SignRefusal;
  }

  lemma GuardsAreRecipients(s: State, step: Step)
    requires !TurnGuard(s, step)
    ensures s.doc.Some? && s.doc.value.sequential && (step.SignBy? || step.DelegateBy? || step.DeclineBy?)
  {
  }

  /** What a step that ignores its guard breaks. */
  lemma UnguardedBreaks(s: State, step: Step)
    requires TurnInv(s) && !TurnGuard(s, step)
    ensures var t := Next(s, step);
            && t.doc.Some? && t.doc.value.sequential
            && ((t.doc.value.status == DocSent && !OneTurn(t.requests))
                || (!ApprovalsSettled(t.approvals) && !OneTurn(OnRelease(t.requests))))
  {
    hide TurnGuard, Next, OneTurn, NoApprovers, ApprovalsSettled, OnRelease;
    GuardsAreRecipients(s, step);
    RecipientsKeepTheRest(s, step);
    TurnKeptIff(s, step);
  }

  predicate OutWithoutTheTurn(s: State) {
    s.doc.Some? && s.doc.value.status == DocSent && s.doc.value.sequential && !ExactlyOne(s.requests)
  }

  /**
   Whenever a guarded run goes on with a step that ignores its guard, some way to go on further
   leaves the document out without exactly one turn.
   */
  lemma EveryTurnGuardIsNeeded(s: State, steps: seq<Step>, bad: Step) returns (more: seq<Step>)
    requires Fresh(s) && GuardedRun(s, steps) && !TurnGuard(Run(s, steps), bad)
    ensures OutWithoutTheTurn(Run(s, steps + [bad] + more))
  {
    RunKeepsTurn(s, steps);
    var u := Run(s, steps);
    var t := Next(u, bad);
    UnguardedBreaks(u, bad);
    RunAppend(s, steps, bad);
    if t.doc.value.status == DocSent && !OneTurn(t.requests) {
      more := [];
    } else {
      more := ReleaseFollows(t);
    }
    OneTurnIsExactlyOne(Run(t, more).requests);
    RunConcat(s, steps + [bad], more);
  }

  // ----- courtesy is enough -----

  /** Recipients act only on requests that were sent to them, and only signers hand theirs on. */
  predicate Polite(s: State, step: Step) {
    match step
    case SignBy(i, _) => i < |s.requests| ==> HasTurn(s.requests[i])
    case DeclineBy(i) => i < |s.requests| ==> HasTurn(s.requests[i])
    case DelegateBy(i, _) => i < |s.requests| ==>
      s.requests[i].role == SignerRole && (HasTurn(s.requests[i]) || (s.doc.Some? && s.doc.value.status == DocSent))
    case _ => true
  }

  predicate PoliteRun(s: State, steps: seq<Step>)
    decreases |steps|
  {
    steps == [] || (Polite(s, steps[0]) && PoliteRun(Next(s, steps[0]), steps[1..]))
  }

  /** Nobody acts while approvals are awaited, and afterwards they cannot release the document again. */
  predicate Awaiting(s: State) {
    s.doc.Some? ==>
      if s.doc.value.status == PendingInternalApproval then forall i | 0 <= i < |s.requests| :: s.requests[i].status == Pending
      else ApprovalsSettled(s.approvals)
  }

  lemma PoliteStepIsGuarded(s: State, step: Step)
    requires Awaiting(s) && Polite(s, step)
    ensures TurnGuard(s, step)
  {
  }

  lemma PoliteStepAwaits(s: State, step: Step)
    requires TurnInv(s) && Awaiting(s) && Polite(s, step)
    ensures Awaiting(Next(s, step))
  {
    hide PdfEntries, AllSignersSigned, OneTurn, OnRelease;
    if step.Decide? && s.doc.Some? && step.k < |s.approvals| && s.approvals[step.k].status == ApprovalPending {
      var decided := s.approvals[step.k := s.approvals[step.k].(status := StatusOf(step.decision))];
      assert decided[step.k].status == StatusOf(step.decision);
      if j :| 0 <= j < |s.approvals| && s.approvals[j].status == Rejected { assert decided[j].status == Rejected; }
    }
  }

  /** Courtesy satisfies every guard, whatever else happens in whatever order. */
  lemma {:induction false} PoliteRunsAreGuarded(s: State, steps: seq<Step>)
    requires TurnInv(s) && Awaiting(s) && PoliteRun(s, steps)
    ensures GuardedRun(s, steps)
    decreases |steps|
  {
    if steps != [] {
      PoliteStepIsGuarded(s, steps[0]);
      PoliteStepAwaits(s, steps[0]);
      TurnKeptIff(s, steps[0]);
      PoliteRunsAreGuarded(Next(s, steps[0]), steps[1..]);
    }
  }

  /** So in every polite run a sequentially routed document that is out has exactly one turn. */
  lemma CourtesyKeepsTheTurn(s: State, steps: seq<Step>)
    requires Fresh(s) && PoliteRun(s, steps)
    requires var t := Run(s, steps); t.doc.Some? && t.doc.value.status == DocSent && t.doc.value.sequential
    ensures ExactlyOne(Run(s, steps).requests)
  {
    PoliteRunsAreGuarded(s, steps);
    ExactlyOneTurn(s, steps);
  }

  // ----- what happens otherwise -----

  /** A signer who acts before being notified, while the current one has opened the document, makes sign notify a third. */
  lemma EarlySigningDuplicatesTheTurn(rows: seq<Request>, mark: Option<string>)
    requires |rows| == 3 && forall i | 0 <= i < 3 :: Active(rows[i]) && rows[i].order == i
    requires rows[0].status == Viewed && rows[1].status == Pending && rows[2].status == Pending
    ensures OneTurn(rows) && !OneTurn(NotifyNext(MarkSigned(rows, 1, mark)))
  {
    assert Current(rows, 0);
    var marked := MarkSigned(rows, 1, mark);
    assert AwaitsNotice(marked[2]) && !AwaitsNotice(marked[0]) && !AwaitsNotice(marked[1]);
    assert NextPendingSigner(marked) == Some(2);
    assert Active(marked[0]) && marked[0].status != Signed;
    SignKeepsTurnIff(rows, 1, mark);
  }

  /** A cc recipient who hands on what was sent to read adds a second signer with the turn. */
  lemma HandedOnCopyDuplicatesTheTurn(email: string)
    ensures var rows := [Request("a", SignerRole, 1, Sent, false, None, None), Request("b", CcRole, 2, Sent, false, None, None)];
            OneTurn(rows) && !OneTurn(HandOn(rows, 1, email))
  {
    var rows := [Request("a", SignerRole, 1, Sent, false, None, None), Request("b", CcRole, 2, Sent, false, None, None)];
    assert Current(rows, 0);
    HandOnKeepsTurnIff(rows, 1, email);
  }

  /** The first signer's delegate is not notified when the last approval comes after the delegation. */
  lemma DelegationBeforeReleaseLosesTheTurn(email: string)
    ensures var rows := [Request("a", SignerRole, 1, Pending, false, None, None), Request("b", SignerRole, 2, Pending, false, None, None)];
            OneTurn(OnRelease(rows)) && !OneTurn(OnRelease(HandOn(rows, 0, email)))
  {
    var rows := [Request("a", SignerRole, 1, Pending, false, None, None), Request("b", SignerRole, 2, Pending, false, None, None)];
    assert IsSigner(rows[0]) && Before(rows, 0, 1);
    FirstIs(rows, 0);
    assert Unreleased(rows);
    ReleaseStartsTheTurn(rows);
    HandOnKeepsReleaseIff(rows, 0, email);
  }
}

/**
 Simultaneous sign handlers with sequential routing, when every signer submits once and only after
 being notified: then no schedule loses the completion, however many signers there are to notify.
 */
module TurnByTurn {
  import opened Wrappers
  import opened Rows
  import opened ConcurrentSigning
  import Lifecycle
  import SequentialRouting

  // ----- courtesy -----

  /** No signer that counts submits twice. */
  predicate EachOnce(s: System) {
    forall t, u | 0 <= t < |s.handlers| && 0 <= u < |s.handlers| && t != u && s.handlers[t].target == s.handlers[u].target ::
      s.handlers[t].target < |s.rows| && !Active(s.rows[s.handlers[t].target])
  }

  /** A handler starts for an unsigned row only when the row has the turn. */
  predicate StartsInTurn(s: System, t: nat) {
    t < |s.handlers| && s.handlers[t].pc == Reading && s.handlers[t].target < |s.rows| && Unsigned(s.rows[s.handlers[t].target]) ==>
      HasTurn(s.rows[s.handlers[t].target])
  }

  predicate Courteous(s: System, schedule: seq<nat>)
    decreases |schedule|
  {
    schedule == [] || (StartsInTurn(s, schedule[0]) && Courteous(Step(s, schedule[0]), schedule[1..]))
  }

  // ----- the invariant -----

  predicate Busy(h: Handler) { h.pc != Reading && !Done(h) }

  predicate OneBusy(s: System) {
    forall t, u | 0 <= t < |s.handlers| && 0 <= u < |s.handlers| && Busy(s.handlers[t]) && Busy(s.handlers[u]) :: t == u
  }

  /** What does not change: who is asked to sign, and by which handlers. */
  predicate Roster(s: System) {
    && s.doc.sequential && OpenDoc(s.doc) && OpenRows(s.rows) && AllServed(s) && EachOnce(s)
    && forall t | 0 <= t < |s.handlers| :: s.handlers[t].target < |s.rows| && s.handlers[t].mark.Some?
  }

  /** All that count have signed or wait. */
  predicate AllWait(rows: seq<Request>) {
    forall i | 0 <= i < |rows| && Active(rows[i]) :: rows[i].status == Signed || rows[i].status == Pending
  }

  /** A handler past the marking has its row signed, and one that was turned away had nothing to sign. */
  predicate WellPlaced(rows: seq<Request>, h: Handler)
    requires h.target < |rows|
  {
    var r := rows[h.target];
    match h.pc
    case Reading => true
    case Marking => Active(r)
    case TurnedAway => !Active(r) || r.status == Signed
    case _ => Active(r) && r.status == Signed
  }

  /** Where the document stands while a handler is busy. */
  predicate Under(doc: Lifecycle.Document, rows: seq<Request>, h: Handler) {
    match h.pc
    case Marking => doc.status == Lifecycle.DocSent && SequentialRouting.Current(rows, h.target)
    case Checking => doc.status == Lifecycle.DocSent && AllWait(rows)
    case ReadingNext => doc.status == Lifecycle.DocSent && AllWait(rows) && !AllSignersSigned(rows)
    case Notifying(n) => doc.status == Lifecycle.DocSent && AllWait(rows) && NextPendingSigner(rows) == Some(n)
    case Guarding => doc.status == Lifecycle.DocSent && AllSignersSigned(rows)
    case Storing => doc.status == Lifecycle.Completed && AllSignersSigned(rows)
    case _ => true
  }

  /** Where it stands while nobody is busy. */
  predicate AtRest(doc: Lifecycle.Document, rows: seq<Request>) {
    || (doc.status == Lifecycle.DocSent && SequentialRouting.OneTurn(rows))
    || (doc.status == Lifecycle.Completed && AllSignersSigned(rows))
  }

  predicate InTurn(s: System) {
    && Roster(s) && OneBusy(s)
    && (forall t | 0 <= t < |s.handlers| :: WellPlaced(s.rows, s.handlers[t]) && Under(s.doc, s.rows, s.handlers[t]))
    && ((forall t | 0 <= t < |s.handlers| :: !Busy(s.handlers[t])) ==> AtRest(s.doc, s.rows))
  }

  // ----- the steps -----

  lemma RosterKept(s: System, n: System)
    requires Roster(s) && n.doc.sequential && OpenDoc(n.doc) && OpenRows(n.rows) && SameHandlers(s, n)
    requires |n.rows| == |s.rows| && forall i | 0 <= i < |s.rows| :: Active(n.rows[i]) == Active(s.rows[i])
    ensures Roster(n)
  {
    AllServedSurvives(s, n);
  }

  lemma Parts(s: System, t: nat)
    requires InTurn(s) && t < |s.handlers|
    ensures Roster(s) && WellPlaced(s.rows, s.handlers[t]) && Under(s.doc, s.rows, s.handlers[t])
    ensures s.doc.sequential && OpenDoc(s.doc) && OpenRows(s.rows)
  {
  }

  /** A handler that is turned away, or starts while nobody is busy. */
  lemma QuietStep(s: System, n: System, t: nat)
    requires InTurn(s) && OnlyMoves(s, n, t) && n == s.(handlers := n.handlers)
    requires n.handlers[t] == s.handlers[t].(pc := n.handlers[t].pc) && s.handlers[t].pc == Reading
    requires WellPlaced(s.rows, n.handlers[t]) && Under(s.doc, s.rows, n.handlers[t])
    requires n.handlers[t].pc == TurnedAway
             || (n.handlers[t].pc == Marking && forall u | 0 <= u < |s.handlers| :: !Busy(s.handlers[u]))
    ensures InTurn(n)
  {
    RosterKept(s, n);
    assert forall u | 0 <= u < |s.handlers| && u != t :: Busy(n.handlers[u]) == Busy(s.handlers[u]);
  }

  /** The busy handler moves on: the others are not busy, and keep what they have if signed rows stay signed. */
  lemma BusyStep(s: System, n: System, t: nat)
    requires InTurn(s) && OnlyMoves(s, n, t) && Busy(s.handlers[t]) && Roster(n) && |n.rows| == |s.rows|
    requires n.handlers[t] == s.handlers[t].(pc := n.handlers[t].pc)
    requires forall i | 0 <= i < |s.rows| :: Active(n.rows[i]) == Active(s.rows[i]) && (s.rows[i].status == Signed ==> n.rows[i].status == Signed)
    requires WellPlaced(n.rows, n.handlers[t]) && Under(n.doc, n.rows, n.handlers[t])
    requires !Busy(n.handlers[t]) ==> AtRest(n.doc, n.rows)
    ensures InTurn(n)
  {
    hide OpenDoc, OpenRows, AllServed, EachOnce, AllWait, AllSignersSigned, NextPendingSigner;
    hide SequentialRouting.Current;
    forall u | 0 <= u < |s.handlers| && u != t
      ensures !Busy(n.handlers[u]) && WellPlaced(n.rows, n.handlers[u]) && Under(n.doc, n.rows, n.handlers[u])
    {
      assert n.handlers[u] == s.handlers[u] && WellPlaced(s.rows, s.handlers[u]);
      assert !Busy(s.handlers[u]);
    }
  }

  /** An unsigned row with the turn is the current one, and then nobody is busy. */
  lemma StartsAlone(s: System, t: nat)
    requires InTurn(s) && t < |s.handlers| && s.handlers[t].pc == Reading
    requires Unsigned(s.rows[s.handlers[t].target]) && HasTurn(s.rows[s.handlers[t].target])
    ensures forall u | 0 <= u < |s.handlers| :: !Busy(s.handlers[u])
    ensures s.doc.status == Lifecycle.DocSent && SequentialRouting.Current(s.rows, s.handlers[t].target)
  {
    var i := s.handlers[t].target;
    forall u | 0 <= u < |s.handlers| ensures !Busy(s.handlers[u]) {
      assert Under(s.doc, s.rows, s.handlers[u]);
      assert s.handlers[u].pc == Marking ==> SequentialRouting.Current(s.rows, s.handlers[u].target);
    }
    var c: nat :| c < |s.rows| && SequentialRouting.Current(s.rows, c);
    assert c == i;
  }

  lemma ReadingStep(s: System, t: nat)
    requires InTurn(s) && t < |s.handlers| && s.handlers[t].pc == Reading && StartsInTurn(s, t)
    ensures InTurn(Step(s, t))
  {
    hide InTurn;
    Parts(s, t);
    var h := s.handlers[t];
    TurnedAwayMeans(s, h);
    var refused := Lifecycle.SignRefusal(Lifecycle.State(Some(s.doc), s.rows, [], s.fields), h.target, ConcurrentSigning.Handed(h)).Some?;
    var n := Step(s, t);
    assert n == Move(s, t, if refused then TurnedAway else Marking);
    if refused {
      RefusedHasNothingToSign(s, t);
    } else {
      StartsAlone(s, t);
    }
    QuietStep(s, n, t);
  }

  lemma RefusedHasNothingToSign(s: System, t: nat)
    requires InTurn(s) && t < |s.handlers|
    requires var r := s.rows[s.handlers[t].target];
             r.status == Signed || r.status == Declined || r.role == CcRole || r.delegatedTo.Some? || s.doc.status == Lifecycle.Completed
    ensures WellPlaced(s.rows, s.handlers[t].(pc := TurnedAway))
  {
    if s.doc.status == Lifecycle.Completed {
      assert AllSignersSigned(s.rows) by {
        if u :| 0 <= u < |s.handlers| && Busy(s.handlers[u]) { assert Under(s.doc, s.rows, s.handlers[u]); }
      }
    }
  }

  lemma MarkingStep(s: System, t: nat)
    requires InTurn(s) && t < |s.handlers| && s.handlers[t].pc == Marking
    ensures InTurn(Step(s, t))
  {
    hide InTurn, Roster, PdfEntries, AllSignersSigned;
    var n, i := Step(s, t), s.handlers[t].target;
    Parts(s, t);
    assert forall j | 0 <= j < |s.rows| && j != i :: n.rows[j] == s.rows[j];
    assert Active(n.rows[i]) && OpenRows(n.rows);
    RosterKept(s, n);
    BusyStep(s, n, t);
  }

  lemma CheckingStep(s: System, t: nat)
    requires InTurn(s) && t < |s.handlers| && s.handlers[t].pc == Checking
    ensures InTurn(Step(s, t))
  {
    hide InTurn, Roster, AllWait, AllSignersSigned, NextPendingSigner;
    var n := Step(s, t);
    Parts(s, t);
    RosterKept(s, n);
    BusyStep(s, n, t);
  }

  /** Somebody who counts has not signed and waits, so the next signer waits. */
  lemma NextWaits(rows: seq<Request>)
    requires AllWait(rows) && !AllSignersSigned(rows) && exists i | 0 <= i < |rows| :: Active(rows[i])
    ensures var next := NextPendingSigner(rows);
            next.Some? && next.value < |rows| && rows[next.value].status == Pending && Active(rows[next.value])
  {
    var w :| 0 <= w < |rows| && Active(rows[w]) && rows[w].status != Signed;
    assert AwaitsNotice(rows[w]);
  }

  lemma ReadingNextStep(s: System, t: nat)
    requires InTurn(s) && t < |s.handlers| && s.handlers[t].pc == ReadingNext
    ensures InTurn(Step(s, t))
  {
    hide InTurn, Roster, AllWait, AllSignersSigned, NextPendingSigner;
    var n := Step(s, t);
    Parts(s, t);
    NextWaits(s.rows);
    RosterKept(s, n);
    BusyStep(s, n, t);
  }

  /** Whoever is notified next, while all wait, has the turn. */
  lemma NoticeGivesTheTurn(rows: seq<Request>, k: nat)
    requires AllWait(rows) && NextPendingSigner(rows) == Some(k)
    ensures k < |rows| && AwaitsNotice(rows[k]) && SequentialRouting.OneTurn(Lifecycle.SetStatus(rows, k, Sent))
  {
    var after := Lifecycle.SetStatus(rows, k, Sent);
    forall i | 0 <= i < |rows| && i != k && Active(rows[i])
      ensures after[i].status == Signed || (after[i].status == Pending && after[k].order <= after[i].order)
    {
      if rows[i].status == Pending { assert AwaitsNotice(rows[i]) && Before(rows, k, i); }
    }
    assert SequentialRouting.Current(after, k);
  }

  lemma NotifyingStep(s: System, t: nat)
    requires InTurn(s) && t < |s.handlers| && s.handlers[t].pc.Notifying?
    ensures InTurn(Step(s, t))
  {
    hide InTurn, Roster, AllWait, AllSignersSigned, SequentialRouting.OneTurn, NextPendingSigner;
    var n, k := Step(s, t), s.handlers[t].pc.next;
    Parts(s, t);
    NoticeGivesTheTurn(s.rows, k);
    assert forall j | 0 <= j < |s.rows| && j != k :: n.rows[j] == s.rows[j];
    assert Active(n.rows[k]);
    RosterKept(s, n);
    BusyStep(s, n, t);
  }

  lemma GuardedStep(s: System, t: nat)
    requires InTurn(s) && t < |s.handlers| && (s.handlers[t].pc == Guarding || s.handlers[t].pc == Storing)
    ensures InTurn(Step(s, t))
  {
    hide PdfEntries, InTurn, Roster, AllWait, AllSignersSigned, NextPendingSigner;
    var n := Step(s, t);
    Parts(s, t);
    RosterKept(s, n);
    BusyStep(s, n, t);
  }

  lemma StepKeepsInTurn(s: System, t: nat)
    requires InTurn(s) && StartsInTurn(s, t)
    ensures InTurn(Step(s, t))
  {
    hide InTurn;
    if t < |s.handlers| {
      match s.handlers[t].pc
      case Reading => ReadingStep(s, t);
      case Marking => MarkingStep(s, t);
      case Checking => CheckingStep(s, t);
      case ReadingNext => ReadingNextStep(s, t);
      case Notifying(_) => NotifyingStep(s, t);
      case Guarding => GuardedStep(s, t);
      case Storing => GuardedStep(s, t);
      case _ =>
    }
  }

  // ----- every courteous schedule -----

  lemma {:induction false} CourteousRun(s0: System, s: System, schedule: seq<nat>)
    requires InTurn(s) && Courteous(s, schedule) && ComesFrom(s0, s) && StoredHolds(s0, s)
    ensures InTurn(Run(s, schedule)) && StoredHolds(s0, Run(s, schedule))
    decreases |schedule|
  {
    if schedule != [] {
      var t := schedule[0];
      StepKeepsInTurn(s, t);
      StepComesFrom(s0, s, t);
      assert t < |s.handlers| && s.handlers[t].pc == Storing ==> AllSignersSigned(s.rows) by {
        if t < |s.handlers| { Parts(s, t); }
      }
      StepStoredHolds(s0, s, t);
      CourteousRun(s0, Step(s, t), schedule[1..]);
    }
  }

  /** With somebody holding the turn, their handler is still to run. */
  lemma TurnMeansUndone(s: System)
    requires InTurn(s) && SequentialRouting.OneTurn(s.rows)
    ensures !AllDone(s)
  {
    hide OpenDoc, OpenRows, EachOnce, NextPendingSigner, Under;
    var c: nat :| c < |s.rows| && SequentialRouting.Current(s.rows, c);
    assert Served(s, c);
    var t :| 0 <= t < |s.handlers| && s.handlers[t].target == c;
    assert WellPlaced(s.rows, s.handlers[t]);
    assert !Done(s.handlers[t]);
  }

  /** A fresh sequential document with exactly one turn, every signer submitting exactly once. */
  predicate StartsOneByOne(s: System) {
    Initial(s) && s.doc.sequential && SequentialRouting.OneTurn(s.rows) && EachOnce(s)
  }

  lemma StartsInOrder(s: System)
    requires StartsOneByOne(s)
    ensures InTurn(s) && ComesFrom(s, s) && StoredHolds(s, s)
  {
    var i :| 0 <= i < |s.rows| && Unsigned(s.rows[i]);
    assert Active(s.rows[i]);
  }

  /**
   When each signer submits once, and only when it is their turn, every schedule that runs all
   handlers to the end completes the document, all signers signed, with exactly one stored PDF
   that shows their marks, however many signers there are.
   */
  lemma OneByOneCompletesOnce(s: System, schedule: seq<nat>)
    requires StartsOneByOne(s) && Courteous(s, schedule) && AllDone(Run(s, schedule))
    ensures CompletedOnce(s, Run(s, schedule))
  {
    StartsInOrder(s);
    CourteousRun(s, s, schedule);
    InitialOnce(s);
    AtMostOnce(s, schedule);
    var e := Run(s, schedule);
    assert forall t | 0 <= t < |e.handlers| :: !Busy(e.handlers[t]);
    if SequentialRouting.OneTurn(e.rows) { TurnMeansUndone(e); }
    assert AtRest(e.doc, e.rows);
    WinnerAtRest(e);
  }

  lemma WinnerAtRest(e: System)
    requires OnceInv(e) && AllDone(e) && e.doc.status == Lifecycle.Completed
    ensures e.stored == 1 && OneWinner(e)
  {
    var t :| 0 <= t < |e.handlers| && Passed(e.handlers[t]);
    assert Done(e.handlers[t]);
    assert e.handlers[t].pc == Finished(true);
  }

  /** And as long as some handler is not done, some handler may move. */
  lemma SomebodyMayMove(s: System) returns (t: nat)
    requires InTurn(s) && !AllDone(s)
    ensures t < |s.handlers| && !Done(s.handlers[t]) && StartsInTurn(s, t)
  {
    hide OpenDoc, OpenRows, EachOnce, NextPendingSigner, Under;
    if u :| 0 <= u < |s.handlers| && Busy(s.handlers[u]) {
      t := u;
    } else if SequentialRouting.OneTurn(s.rows) {
      var c: nat :| c < |s.rows| && SequentialRouting.Current(s.rows, c);
      assert Served(s, c);
      t :| 0 <= t < |s.handlers| && s.handlers[t].target == c;
      assert WellPlaced(s.rows, s.handlers[t]);
    } else {
      t :| 0 <= t < |s.handlers| && !Done(s.handlers[t]);
      assert AtRest(s.doc, s.rows);
    }
  }
}

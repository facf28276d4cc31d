/**
 sign handlers running at the same time on one document, one database access at a time.

 A handler reads the request and the document, marks the request signed, checks whether all
 have signed, and then either tries the guarded update to "completed" and stores the PDF, or,
 with sequential routing, reads the next signer and notifies them. Storing the PDF succeeds,
 nothing else writes the rows, and the document does not expire.
 */
module ConcurrentSigning {
  import opened Wrappers
  import opened Rows
  import opened Lifecycle

  datatype Pc =
    | Reading | Marking | Checking | Guarding | Storing
    | ReadingNext | Notifying(next: nat)
    | Finished(won: bool) | TurnedAway

  datatype Handler = Handler(target: nat, mark: Option<string>, pc: Pc)

  datatype System = System(doc: Document, rows: seq<Request>, fields: seq<Field>, handlers: seq<Handler>, stored: nat)

  function Handed(h: Handler): Submission { Submission(0, true, h.mark, true) }

  function Move(s: System, t: nat, pc: Pc): System
    requires t < |s.handlers|
  {
    s.(handlers := s.handlers[t := s.handlers[t].(pc := pc)])
  }

  /** The next database access of handler t. */
  function Step(s: System, t: nat): System {
    if t >= |s.handlers| then s
    else
      var h := s.handlers[t];
      match h.pc
      case Reading =>
        if SignRefusal(State(Some(s.doc), s.rows, [], s.fields), h.target, Handed(h)).Some?
        then Move(s, t, TurnedAway) else Move(s, t, Marking)
      case Marking =>
        if h.target < |s.rows| then Move(s.(rows := MarkSigned(s.rows, h.target, h.mark)), t, Checking) else s
      case Checking =>
        if AllSignersSigned(s.rows) then Move(s, t, Guarding)
        else if s.doc.sequential then Move(s, t, ReadingNext)
        else Move(s, t, Finished(false))
      case Guarding =>
        if s.doc.status == Completed then Move(s, t, Finished(false))
        else Move(s.(doc := s.doc.(status := Completed)), t, Storing)
      case Storing =>
        Move(s.(doc := s.doc.(signedPdf := Some(PdfEntries(s.rows, s.fields))), stored := s.stored + 1), t, Finished(true))
      case ReadingNext =>
        var next := NextPendingSigner(s.rows);
        if next.Some? && s.rows[next.value].status == Pending then Move(s, t, Notifying(next.value))
        else Move(s, t, Finished(false))
      case Notifying(next) =>
        if next < |s.rows| then Move(s.(rows := SetStatus(s.rows, next, Sent)), t, Finished(false)) else s
      case _ => s
  }

  function Run(s: System, schedule: seq<nat>): System
    decreases |schedule|
  {
    if schedule == [] then s else Run(Step(s, schedule[0]), schedule[1..])
  }

  lemma OneMore(s: System, t: nat, rest: seq<nat>)
    ensures Run(s, [t] + rest) == Run(Step(s, t), rest)
  {
    assert ([t] + rest)[1..] == rest;
  }

  /** Five accesses of one handler, one after the other. */
  lemma FiveSteps(s: System, t: nat)
    ensures Run(s, [t, t, t, t, t]) == Step(Step(Step(Step(Step(s, t), t), t), t), t)
  {
    hide Step;
    OneMore(s, t, [t, t, t, t]);
    OneMore(Step(s, t), t, [t, t, t]);
    OneMore(Step(Step(s, t), t), t, [t, t]);
    OneMore(Step(Step(Step(s, t), t), t), t, [t]);
    OneMore(Step(Step(Step(Step(s, t), t), t), t), t, []);
    assert [t, t, t, t, t] == [t] + [t, t, t, t] && [t, t, t, t] == [t] + [t, t, t] && [t, t, t] == [t] + [t, t] && [t, t] == [t] + [t] && [t] == [t] + [];
  }

  /** What the handler of Lifecycle answers, as the place a handler here ends at. */
  function EndOf(o: Outcome): Pc { if o.Err? then TurnedAway else Finished(o.flag) }

  /** The document, rows and handler t are as the uninterrupted handler leaves them. */
  predicate LeftAs(n: System, s: System, t: nat, r: (State, Outcome))
    requires t < |s.handlers|
  {
    && r.0.doc == Some(n.doc.(completedAt := if r.0.doc.Some? then r.0.doc.value.completedAt else None))
    && n.rows == r.0.requests && n.fields == s.fields
    && n.handlers == s.handlers[t := s.handlers[t].(pc := EndOf(r.1))]
    && n.stored == s.stored + if r.1 == Ok(true) then 1 else 0
  }

  lemma AloneOnTheWay(s: System, t: nat)
    requires t < |s.handlers| && s.handlers[t].pc == Reading && s.handlers[t].target < |s.rows|
    requires SignRefusal(State(Some(s.doc), s.rows, [], s.fields), s.handlers[t].target, Handed(s.handlers[t])).None?
    ensures Step(Step(s, t), t) == Move(s.(rows := MarkSigned(s.rows, s.handlers[t].target, s.handlers[t].mark)), t, Checking)
  {
    hide SignRefusal;
    var s1 := Step(s, t);
    assert s1 == Move(s, t, Marking);
  }

  lemma AloneToTheEnd(m: System, t: nat)
    requires t < |m.handlers| && m.handlers[t].pc == Checking && m.doc.status != Completed
    ensures var n := Step(Step(Step(m, t), t), t);
            if AllSignersSigned(m.rows) then
              n == Move(m.(doc := m.doc.(status := Completed, signedPdf := Some(PdfEntries(m.rows, m.fields))), stored := m.stored + 1), t, Finished(true))
            else if m.doc.sequential then n == Move(m.(rows := NotifyNext(m.rows)), t, Finished(false))
            else n == Move(m, t, Finished(false))
  {
    hide AllSignersSigned, PdfEntries;
    var m1 := Step(m, t);
    if AllSignersSigned(m.rows) {
      assert m1 == Move(m, t, Guarding);
      var m2 := Step(m1, t);
      assert m2 == Move(m.(doc := m.doc.(status := Completed)), t, Storing);
    } else if m.doc.sequential {
      assert m1 == Move(m, t, ReadingNext);
    } else {
      assert m1 == Move(m, t, Finished(false));
    }
  }

  /** Without an expiry a refusal changes nothing, and only rows that exist are accepted. */
  lemma RefusedKeeps(a: State, i: nat, sub: Submission)
    requires a.doc.Some? && a.doc.value.expiresAt.None?
    ensures SignRefusal(a, i, sub).Some? ==> SignStep(a, i, sub) == (a, Err(SignRefusal(a, i, sub).value))
    ensures SignRefusal(a, i, sub).None? ==> i < |a.requests| && a.doc.value.status != Completed
  {
    hide AllSignersSigned, PdfEntries, NotifyNext, ImageRequired;
  }

  /** What the handler of Lifecycle makes of these rows. */
  function InOneStep(s: System, t: nat): (State, Outcome)
    requires t < |s.handlers|
  {
    SignStep(State(Some(s.doc), s.rows, [], s.fields), s.handlers[t].target, Handed(s.handlers[t]))
  }

  lemma AloneRefused(s: System, t: nat)
    requires t < |s.handlers| && s.handlers[t].pc == Reading && s.doc.expiresAt.None?
    requires SignRefusal(State(Some(s.doc), s.rows, [], s.fields), s.handlers[t].target, Handed(s.handlers[t])).Some?
    ensures LeftAs(Run(s, [t, t, t, t, t]), s, t, InOneStep(s, t))
  {
    hide SignRefusal, SignStep;
    var h := s.handlers[t];
    FiveSteps(s, t);
    RefusedKeeps(State(Some(s.doc), s.rows, [], s.fields), h.target, Handed(h));
    assert Step(s, t) == Move(s, t, TurnedAway);
  }

  lemma AloneAccepted(s: System, t: nat)
    requires t < |s.handlers| && s.handlers[t].pc == Reading && s.doc.expiresAt.None?
    requires SignRefusal(State(Some(s.doc), s.rows, [], s.fields), s.handlers[t].target, Handed(s.handlers[t])).None?
    ensures LeftAs(Run(s, [t, t, t, t, t]), s, t, InOneStep(s, t))
  {
    hide SignRefusal, Step, AllSignersSigned, PdfEntries, NotifyNext, MarkSigned;
    var h := s.handlers[t];
    FiveSteps(s, t);
    RefusedKeeps(State(Some(s.doc), s.rows, [], s.fields), h.target, Handed(h));
    AloneOnTheWay(s, t);
    var m := Move(s.(rows := MarkSigned(s.rows, h.target, h.mark)), t, Checking);
    AloneToTheEnd(m, t);
  }

  /** A handler that is not interrupted does what the handler of Lifecycle does in one step. */
  lemma AloneIsSignStep(s: System, t: nat)
    requires t < |s.handlers| && s.handlers[t].pc == Reading && s.doc.expiresAt.None?
    ensures LeftAs(Run(s, [t, t, t, t, t]), s, t, InOneStep(s, t))
  {
    hide Step, SignStep, SignRefusal, LeftAs;
    if SignRefusal(State(Some(s.doc), s.rows, [], s.fields), s.handlers[t].target, Handed(s.handlers[t])).Some? {
      AloneRefused(s, t);
    } else {
      AloneAccepted(s, t);
    }
  }

  predicate Done(h: Handler) { h.pc.Finished? || h.pc.TurnedAway? }

  predicate AllDone(s: System) { forall t | 0 <= t < |s.handlers| :: Done(s.handlers[t]) }

  predicate Unsigned(r: Request) { Active(r) && r.status != Signed }

  /** A sent document with something left to sign; every signer submits at least once. */
  predicate Initial(s: System) {
    && s.doc.status == DocSent && s.doc.orgActive && s.doc.expiresAt.None?
    && s.stored == 0
    && (forall i | 0 <= i < |s.rows| && Active(s.rows[i]) :: s.rows[i].status in {Pending, Sent, Viewed, Signed})
    && (exists i | 0 <= i < |s.rows| :: Unsigned(s.rows[i]))
    && (forall i | 0 <= i < |s.rows| :: s.rows[i].role != ApproverRole)
    && (forall t | 0 <= t < |s.handlers| :: s.handlers[t].target < |s.rows| && s.handlers[t].mark.Some? && s.handlers[t].pc == Reading)
    && (forall i | 0 <= i < |s.rows| && Active(s.rows[i]) :: Served(s, i))
  }

  predicate Served(s: System, i: nat) {
    exists t | 0 <= t < |s.handlers| :: s.handlers[t].target == i
  }

  // ----- at most once -----

  /** The handler got past the guarded update. */
  predicate Passed(h: Handler) { h.pc == Storing || h.pc == Finished(true) }

  predicate OnceInv(s: System) {
    && (forall t | 0 <= t < |s.handlers| && Passed(s.handlers[t]) :: s.doc.status == Completed)
    && (forall t, u | 0 <= t < |s.handlers| && 0 <= u < |s.handlers| && Passed(s.handlers[t]) && Passed(s.handlers[u]) :: t == u)
    && (s.doc.status == Completed ==> exists t | 0 <= t < |s.handlers| :: Passed(s.handlers[t]))
    && s.stored <= 1
    && (s.stored == 1 <==> exists t | 0 <= t < |s.handlers| :: s.handlers[t].pc == Finished(true))
  }

  /** Only handler t moves. */
  predicate OnlyMoves(s: System, n: System, t: nat) {
    && t < |s.handlers| == |n.handlers|
    && forall u | 0 <= u < |s.handlers| && u != t :: n.handlers[u] == s.handlers[u]
  }

  lemma QuietKeepsOnce(s: System, n: System, t: nat)
    requires OnceInv(s) && OnlyMoves(s, n, t) && !Passed(s.handlers[t]) && !Passed(n.handlers[t])
    requires n.doc.status == s.doc.status && n.stored == s.stored
    ensures OnceInv(n)
  {
    if u :| 0 <= u < |s.handlers| && Passed(s.handlers[u]) { assert Passed(n.handlers[u]); }
    if u :| 0 <= u < |s.handlers| && s.handlers[u].pc == Finished(true) { assert n.handlers[u].pc == Finished(true); }
  }

  lemma GuardKeepsOnce(s: System, n: System, t: nat)
    requires OnceInv(s) && OnlyMoves(s, n, t) && s.doc.status != Completed && n.handlers[t].pc == Storing
    requires n.doc.status == Completed && n.stored == s.stored
    ensures OnceInv(n)
  {
    assert Passed(n.handlers[t]);
    assert forall u | 0 <= u < |s.handlers| && u != t :: !Passed(n.handlers[u]) && !Passed(s.handlers[u]);
  }

  lemma StoreKeepsOnce(s: System, n: System, t: nat)
    requires OnceInv(s) && OnlyMoves(s, n, t) && s.handlers[t].pc == Storing && n.handlers[t].pc == Finished(true)
    requires n.doc.status == s.doc.status && n.stored == s.stored + 1
    ensures OnceInv(n)
  {
    assert Passed(s.handlers[t]) && Passed(n.handlers[t]);
    assert forall u | 0 <= u < |s.handlers| && u != t :: !Passed(n.handlers[u]) && !Passed(s.handlers[u]);
  }

  lemma StepKeepsOnce(s: System, t: nat)
    requires OnceInv(s)
    ensures OnceInv(Step(s, t))
  {
    if t < |s.handlers| {
      var n := Step(s, t);
      assert OnlyMoves(s, n, t);
      if s.handlers[t].pc == Storing {
        StoreKeepsOnce(s, n, t);
      } else if s.handlers[t].pc == Guarding && s.doc.status != Completed {
        GuardKeepsOnce(s, n, t);
      } else if !Passed(s.handlers[t]) {
        QuietKeepsOnce(s, n, t);
      }
    }
  }

  /**
   Whatever the interleaving, and with either routing: never two handlers past the guarded
   update, never two stored PDFs, and a stored PDF only on a completed document.
   */
  lemma {:induction false} AtMostOnce(s: System, schedule: seq<nat>)
    requires OnceInv(s)
    ensures OnceInv(Run(s, schedule))
    decreases |schedule|
  {
    if schedule != [] {
      StepKeepsOnce(s, schedule[0]);
      AtMostOnce(Step(s, schedule[0]), schedule[1..]);
    }
  }

  lemma InitialOnce(s: System)
    requires Initial(s)
    ensures OnceInv(s)
  {
  }

  // ----- whose marks -----

  /** A signed row is as it was at the start, or carries the mark that some handler of it handed in. */
  predicate RowFrom(s0: System, i: nat, r: Request)
    requires i < |s0.rows|
  {
    && r == s0.rows[i].(status := r.status, mark := r.mark)
    && (r.status == Signed ==> r == s0.rows[i] || HandedIn(s0, i, r.mark))
  }

  predicate HandedIn(s0: System, i: nat, mark: Option<string>) {
    exists t | 0 <= t < |s0.handlers| :: s0.handlers[t].target == i && s0.handlers[t].mark == mark
  }

  predicate RowsFrom(s0: System, rows: seq<Request>) {
    |rows| == |s0.rows| && forall i | 0 <= i < |rows| :: RowFrom(s0, i, rows[i])
  }

  predicate SameHandlers(s0: System, s: System) {
    && |s.handlers| == |s0.handlers|
    && forall t | 0 <= t < |s.handlers| :: s.handlers[t].target == s0.handlers[t].target && s.handlers[t].mark == s0.handlers[t].mark
  }

  predicate ComesFrom(s0: System, s: System) {
    s.fields == s0.fields && SameHandlers(s0, s) && RowsFrom(s0, s.rows)
  }

  /** Rows are only ever marked with what their handlers hand in, under every schedule. */
  lemma StepComesFrom(s0: System, s: System, t: nat)
    requires ComesFrom(s0, s)
    ensures ComesFrom(s0, Step(s, t))
  {
    hide PdfEntries, SignRefusal, AllSignersSigned;
    if t < |s.handlers| && s.handlers[t].pc == Marking && s.handlers[t].target < |s.rows| {
      var i := s.handlers[t].target;
      assert s0.handlers[t].target == i && s0.handlers[t].mark == s.handlers[t].mark;
      assert HandedIn(s0, i, s.handlers[t].mark);
    }
  }

  /** The stored PDF shows all signers' signatures, each with a mark of that signer. */
  ghost predicate PdfHolds(s0: System, pdf: Option<seq<PdfEntry>>) {
    exists rows {:trigger RowsFrom(s0, rows)} :: RowsFrom(s0, rows) && AllSignersSigned(rows) && pdf == Some(PdfEntries(rows, s0.fields))
  }

  ghost predicate StoredHolds(s0: System, s: System) { s.stored > 0 ==> PdfHolds(s0, s.doc.signedPdf) }

  lemma StepStoredHolds(s0: System, s: System, t: nat)
    requires ComesFrom(s0, s) && StoredHolds(s0, s)
    requires t < |s.handlers| && s.handlers[t].pc == Storing ==> AllSignersSigned(s.rows)
    ensures StoredHolds(s0, Step(s, t))
  {
    hide PdfEntries, SignRefusal, AllSignersSigned;
    if t < |s.handlers| && s.handlers[t].pc == Storing { assert RowsFrom(s0, s.rows); }
  }

  // ----- at least once -----

  predicate OnlyUnsigned(rows: seq<Request>, p: nat) {
    forall i | 0 <= i < |rows| && Unsigned(rows[i]) :: i == p
  }

  predicate NonePending(rows: seq<Request>) {
    forall i | 0 <= i < |rows| && Active(rows[i]) :: rows[i].status != Pending
  }

  /** Why no handler ever writes over a signed request with a late notice. */
  datatype Reason = ParallelRouting | NobodyToNotify | LoneSigner(p: nat)

  predicate SignedAt(s: System, i: nat) { i < |s.rows| && s.rows[i].status == Signed }

  predicate Past(pc: Pc) { pc == Checking || pc == Guarding || pc == Storing || pc == ReadingNext || pc.Finished? }

  predicate Leading(h: Handler) { h.pc == Checking || h.pc == Guarding }

  predicate Holds(s: System, why: Reason) {
    match why
    case ParallelRouting => !s.doc.sequential
    case NobodyToNotify => NonePending(s.rows)
    case LoneSigner(p) =>
      && OnlyUnsigned(s.rows, p)
      && forall t | 0 <= t < |s.handlers| && (s.handlers[t].pc == Marking || Past(s.handlers[t].pc)) :: s.handlers[t].target == p
  }

  predicate HandlerInv(s: System, why: Reason, h: Handler) {
    && h.target < |s.rows| && h.mark.Some? && !h.pc.Notifying?
    && (h.pc == Marking ==> Active(s.rows[h.target]))
    && (Past(h.pc) ==> SignedAt(s, h.target))
    && (h.pc == TurnedAway ==> s.doc.status == Completed || !Active(s.rows[h.target]) || SignedAt(s, h.target))
    && (h.pc == ReadingNext ==> why == NobodyToNotify)
  }

  predicate OpenDoc(d: Document) {
    d.orgActive && d.expiresAt.None? && (d.status == DocSent || d.status == Completed)
  }

  predicate OpenRows(rows: seq<Request>) {
    && (forall i | 0 <= i < |rows| :: rows[i].role != ApproverRole && (Active(rows[i]) ==> rows[i].status != Declined))
    && (exists i | 0 <= i < |rows| :: Active(rows[i]))
  }

  predicate AllServed(s: System) {
    forall i | 0 <= i < |s.rows| && Active(s.rows[i]) :: Served(s, i)
  }

  predicate HandlersInv(s: System, why: Reason) {
    forall t | 0 <= t < |s.handlers| :: HandlerInv(s, why, s.handlers[t])
  }

  /** Once all have signed, somebody is still on the way to the guarded update. */
  predicate SomeoneLeads(s: System) {
    s.doc.status != Completed && AllSignersSigned(s.rows) ==> exists t | 0 <= t < |s.handlers| :: Leading(s.handlers[t])
  }

  predicate LiveInv(s: System, why: Reason) {
    OpenDoc(s.doc) && OpenRows(s.rows) && AllServed(s) && HandlersInv(s, why) && SomeoneLeads(s) && Holds(s, why)
  }

  /** What a handler is turned away for, when it hands in what is asked. */
  lemma TurnedAwayMeans(s: System, h: Handler)
    requires OpenDoc(s.doc)
    requires h.target < |s.rows| && h.mark.Some?
    ensures SignRefusal(State(Some(s.doc), s.rows, [], s.fields), h.target, Handed(h)).None?
       <==> var r := s.rows[h.target];
            r.status != Signed && r.status != Declined && r.role != CcRole && r.delegatedTo.None? && s.doc.status != Completed
  {
  }

  lemma MarkKeepsLive(s: System, why: Reason, t: nat)
    requires LiveInv(s, why) && t < |s.handlers| && s.handlers[t].pc == Marking
    ensures LiveInv(Step(s, t), why)
  {
    var n := Step(s, t);
    var i := s.handlers[t].target;
    assert HandlerInv(s, why, s.handlers[t]);
    assert forall j | 0 <= j < |s.rows| && j != i :: n.rows[j] == s.rows[j];
    forall u | 0 <= u < |s.handlers|
      ensures HandlerInv(n, why, n.handlers[u])
    {
      assert HandlerInv(s, why, s.handlers[u]);
    }
    assert Leading(n.handlers[t]);
    assert Active(n.rows[i]);
    AllServedSurvives(s, n);
  }

  /** A handler's own conditions survive a change of the document towards completion. */
  lemma HandlersSurvive(s: System, n: System, why: Reason, t: nat)
    requires HandlersInv(s, why) && t < |s.handlers| == |n.handlers|
    requires n.rows == s.rows && (s.doc.status == Completed ==> n.doc.status == Completed)
    requires HandlerInv(n, why, n.handlers[t])
    requires forall u | 0 <= u < |s.handlers| && u != t :: n.handlers[u] == s.handlers[u]
    ensures HandlersInv(n, why)
  {
    forall u | 0 <= u < |n.handlers| && u != t
      ensures HandlerInv(n, why, n.handlers[u])
    {
      assert HandlerInv(s, why, s.handlers[u]);
    }
  }

  lemma LeaderSurvives(s: System, n: System, t: nat)
    requires SomeoneLeads(s) && t < |s.handlers| == |n.handlers|
    requires n.rows == s.rows && (s.doc.status == Completed ==> n.doc.status == Completed)
    requires forall u | 0 <= u < |s.handlers| && u != t :: n.handlers[u] == s.handlers[u]
    requires Leading(s.handlers[t]) && n.doc.status != Completed && AllSignersSigned(s.rows) ==> Leading(n.handlers[t])
    ensures SomeoneLeads(n)
  {
    if n.doc.status != Completed && AllSignersSigned(n.rows) {
      var u :| 0 <= u < |s.handlers| && Leading(s.handlers[u]);
      assert Leading(n.handlers[u]);
    }
  }

  /** A step that leaves the rows alone keeps the invariant if the moving handler does. */
  lemma MoveKeepsLive(s: System, why: Reason, t: nat, pc: Pc, d: Document, stored: nat)
    requires LiveInv(s, why) && t < |s.handlers|
    requires d.sequential == s.doc.sequential && OpenDoc(d)
    requires s.doc.status == Completed ==> d.status == Completed
    requires HandlerInv(s.(doc := d), why, s.handlers[t].(pc := pc))
    requires (pc == Marking || Past(pc)) && why.LoneSigner? ==> s.handlers[t].target == why.p
    requires Leading(s.handlers[t]) && d.status != Completed && AllSignersSigned(s.rows) ==> pc == Guarding
    ensures LiveInv(Move(s.(doc := d, stored := stored), t, pc), why)
  {
    var n := Move(s.(doc := d, stored := stored), t, pc);
    HandlersSurvive(s, n, why, t);
    LeaderSurvives(s, n, t);
    AllServedSurvives(s, n);
  }

  lemma AllServedSurvives(s: System, n: System)
    requires AllServed(s) && |n.handlers| == |s.handlers| && |n.rows| == |s.rows|
    requires forall u | 0 <= u < |s.handlers| :: n.handlers[u].target == s.handlers[u].target
    requires forall i | 0 <= i < |s.rows| :: Active(n.rows[i]) == Active(s.rows[i])
    ensures AllServed(n)
  {
    forall i | 0 <= i < |n.rows| && Active(n.rows[i])
      ensures Served(n, i)
    {
      assert Served(s, i);
      var u :| 0 <= u < |s.handlers| && s.handlers[u].target == i;
      assert n.handlers[u].target == i;
    }
  }

  lemma ReadingKeepsLive(s: System, why: Reason, t: nat)
    requires LiveInv(s, why) && t < |s.handlers| && s.handlers[t].pc == Reading
    ensures LiveInv(Step(s, t), why)
  {
    var h := s.handlers[t];
    assert HandlerInv(s, why, h);
    TurnedAwayMeans(s, h);
    var pc := if SignRefusal(State(Some(s.doc), s.rows, [], s.fields), h.target, Handed(h)).Some? then TurnedAway else Marking;
    assert why.LoneSigner? && pc == Marking ==> Unsigned(s.rows[h.target]);
    MoveKeepsLive(s, why, t, pc, s.doc, s.stored);
  }

  lemma CheckingKeepsLive(s: System, why: Reason, t: nat)
    requires LiveInv(s, why) && t < |s.handlers| && s.handlers[t].pc == Checking
    ensures LiveInv(Step(s, t), why)
  {
    assert HandlerInv(s, why, s.handlers[t]);
    if AllSignersSigned(s.rows) {
      MoveKeepsLive(s, why, t, Guarding, s.doc, s.stored);
    } else {
      MoveKeepsLive(s, why, t, if s.doc.sequential then ReadingNext else Finished(false), s.doc, s.stored);
    }
  }

  lemma ReadingNextKeepsLive(s: System, why: Reason, t: nat)
    requires LiveInv(s, why) && t < |s.handlers| && s.handlers[t].pc == ReadingNext
    ensures LiveInv(Step(s, t), why)
  {
    assert HandlerInv(s, why, s.handlers[t]);
    assert !(NextPendingSigner(s.rows).Some? && s.rows[NextPendingSigner(s.rows).value].status == Pending);
    MoveKeepsLive(s, why, t, Finished(false), s.doc, s.stored);
  }

  lemma OtherStepsKeepLive(s: System, why: Reason, t: nat)
    requires LiveInv(s, why) && t < |s.handlers| && s.handlers[t].pc != Marking
    ensures LiveInv(Step(s, t), why)
  {
    var h := s.handlers[t];
    assert HandlerInv(s, why, h);
    match h.pc
    case Reading => ReadingKeepsLive(s, why, t);
    case Checking => CheckingKeepsLive(s, why, t);
    case Guarding =>
      if s.doc.status == Completed { MoveKeepsLive(s, why, t, Finished(false), s.doc, s.stored); }
      else { MoveKeepsLive(s, why, t, Storing, s.doc.(status := Completed), s.stored); }
    case Storing => StoringKeepsLive(s, why, t);
    case ReadingNext => ReadingNextKeepsLive(s, why, t);
    case _ =>
  }

  lemma StoringKeepsLive(s: System, why: Reason, t: nat)
    requires LiveInv(s, why) && t < |s.handlers| && s.handlers[t].pc == Storing
    ensures LiveInv(Step(s, t), why)
  {
    assert HandlerInv(s, why, s.handlers[t]);
    MoveKeepsLive(s, why, t, Finished(true), s.doc.(signedPdf := Some(PdfEntries(s.rows, s.fields))), s.stored + 1);
  }

  lemma StepKeepsLive(s: System, why: Reason, t: nat)
    requires LiveInv(s, why)
    ensures LiveInv(Step(s, t), why)
  {
    hide LiveInv;
    if t < |s.handlers| {
      if s.handlers[t].pc == Marking { MarkKeepsLive(s, why, t); } else { OtherStepsKeepLive(s, why, t); }
    }
  }

  /** Past the check for the last signature all have signed. */
  predicate SignedWhenChecked(s: System) {
    && (s.doc.status == Completed ==> AllSignersSigned(s.rows))
    && forall t | 0 <= t < |s.handlers| && (s.handlers[t].pc == Guarding || s.handlers[t].pc == Storing) :: AllSignersSigned(s.rows)
  }

  lemma StepKeepsChecked(s: System, why: Reason, t: nat)
    requires LiveInv(s, why) && SignedWhenChecked(s)
    ensures SignedWhenChecked(Step(s, t))
  {
    hide PdfEntries, SignRefusal;
    if t < |s.handlers| {
      assert HandlerInv(s, why, s.handlers[t]);
      if s.handlers[t].pc == Marking && AllSignersSigned(s.rows) {
        SignedStaysSigned(s.rows, s.handlers[t].target, s.handlers[t].mark);
      }
    }
  }

  lemma SignedStaysSigned(rows: seq<Request>, i: nat, mark: Option<string>)
    requires AllSignersSigned(rows) && i < |rows|
    ensures AllSignersSigned(MarkSigned(rows, i, mark))
  {
    var w :| 0 <= w < |rows| && Active(rows[w]);
    assert Active(MarkSigned(rows, i, mark)[w]);
  }

  lemma {:induction false} RunKeepsLive(s0: System, s: System, why: Reason, schedule: seq<nat>)
    requires LiveInv(s, why) && SignedWhenChecked(s) && ComesFrom(s0, s) && StoredHolds(s0, s)
    ensures var t := Run(s, schedule); LiveInv(t, why) && SignedWhenChecked(t) && StoredHolds(s0, t)
    decreases |schedule|
  {
    if schedule != [] {
      var t := schedule[0];
      StepKeepsLive(s, why, t);
      StepKeepsChecked(s, why, t);
      StepComesFrom(s0, s, t);
      StepStoredHolds(s0, s, t);
      RunKeepsLive(s0, Step(s, t), why, schedule[1..]);
    }
  }

  lemma InitialLive(s: System, why: Reason)
    requires Initial(s) && Holds(s, why)
    ensures LiveInv(s, why) && SignedWhenChecked(s) && ComesFrom(s, s) && StoredHolds(s, s)
  {
    var i :| 0 <= i < |s.rows| && Unsigned(s.rows[i]);
    assert Active(s.rows[i]);
  }

  /**
   The document is completed, with all signers signed and one PDF stored, by the one handler that
   won; and the PDF shows each signer's signature with a mark handed in for it.
   */
  ghost predicate CompletedOnce(s0: System, s: System) {
    && s.doc.status == Completed && s.stored == 1 && OneWinner(s)
    && AllSignersSigned(s.rows) && PdfHolds(s0, s.doc.signedPdf)
  }

  predicate OneWinner(s: System) {
    exists t | 0 <= t < |s.handlers| :: s.handlers[t].pc == Finished(true)
                                       && forall u | 0 <= u < |s.handlers| && s.handlers[u].pc == Finished(true) :: u == t
  }

  lemma QuietMeansCompleted(s: System, why: Reason)
    requires LiveInv(s, why) && OnceInv(s) && AllDone(s)
    ensures s.doc.status == Completed && s.stored == 1 && OneWinner(s)
  {
    if s.doc.status != Completed {
      forall i | 0 <= i < |s.rows| && Active(s.rows[i])
        ensures s.rows[i].status == Signed
      {
        assert Served(s, i);
        var t :| 0 <= t < |s.handlers| && s.handlers[t].target == i;
        assert HandlerInv(s, why, s.handlers[t]) && Done(s.handlers[t]);
      }
      assert AllSignersSigned(s.rows);
      assert false;
    }
    var t :| 0 <= t < |s.handlers| && Passed(s.handlers[t]);
    assert Done(s.handlers[t]);
    assert s.handlers[t].pc == Finished(true);
  }

  lemma AlwaysCompletes(s: System, why: Reason, schedule: seq<nat>)
    requires Initial(s) && Holds(s, why) && AllDone(Run(s, schedule))
    ensures CompletedOnce(s, Run(s, schedule))
  {
    InitialOnce(s);
    AtMostOnce(s, schedule);
    InitialLive(s, why);
    RunKeepsLive(s, s, why, schedule);
    QuietMeansCompleted(Run(s, schedule), why);
  }

  // ----- the schedule that loses a completion -----

  /** Sequential routing, with a signer still to be notified and another one left to sign. */
  predicate LateNoticePossible(s: System) {
    s.doc.sequential && exists p | 0 <= p < |s.rows| :: PendingBesides(s.rows, p)
  }

  predicate PendingBesides(rows: seq<Request>, p: nat)
    requires p < |rows|
  {
    Unsigned(rows[p]) && rows[p].status == Pending && exists q | 0 <= q < |rows| && q != p :: Unsigned(rows[q])
  }

  lemma {:induction false} RunAppend(s: System, run: seq<nat>, t: nat)
    ensures Run(s, run + [t]) == Step(Run(s, run), t)
    decreases |run|
  {
    if run == [] {
      assert [t][1..] == [] && run + [t] == [t];
    } else {
      assert (run + [t])[1..] == run[1..] + [t];
      RunAppend(Step(s, run[0]), run[1..], t);
    }
  }

  lemma {:induction false} RunConcat(s: System, a: seq<nat>, b: seq<nat>)
    ensures Run(s, a + b) == Run(Run(s, a), b)
    decreases |b|
  {
    if b == [] {
      assert a + b == a;
    } else {
      var n := |b| - 1;
      RunConcat(s, a, b[..n]);
      RunAppend(s, a + b[..n], b[n]);
      RunAppend(Run(s, a), b[..n], b[n]);
      assert a + b == (a + b[..n]) + [b[n]] && b == b[..n] + [b[n]];
    }
  }

  /** Documents, targets and who counts do not change; row p counts and all others have signed. */
  predicate AllButOne(s: System, p: nat) {
    && OpenDoc(s.doc) && s.doc.status == DocSent && s.doc.sequential
    && p < |s.rows| && Active(s.rows[p])
    && forall i | 0 <= i < |s.rows| && i != p && Active(s.rows[i]) :: s.rows[i].status == Signed
  }

  predicate HasRead(s: System, h: Handler) {
    h.target < |s.rows| && h.pc == if Unsigned(s.rows[h.target]) then Marking else TurnedAway
  }

  /** First, every handler reads. */
  lemma EveryoneReads(s: System) returns (run: seq<nat>)
    requires Initial(s)
    ensures var t := Run(s, run);
            && t == s.(handlers := t.handlers) && |t.handlers| == |s.handlers|
            && forall u | 0 <= u < |s.handlers| :: HasRead(s, t.handlers[u]) && t.handlers[u] == s.handlers[u].(pc := t.handlers[u].pc)
  {
    run := [];
    var t, k := s, 0;
    while k < |s.handlers|
      invariant k <= |s.handlers| == |t.handlers|
      invariant t == Run(s, run) && t == s.(handlers := t.handlers)
      invariant forall u | 0 <= u < k :: HasRead(s, t.handlers[u]) && t.handlers[u] == s.handlers[u].(pc := t.handlers[u].pc)
      invariant forall u | k <= u < |s.handlers| :: t.handlers[u] == s.handlers[u]
    {
      RunAppend(s, run, k);
      TurnedAwayMeans(t, t.handlers[k]);
      run, t := run + [k], Step(t, k);
      k := k + 1;
    }
  }

  /** Then all but the handlers of row p mark their requests signed. */
  lemma OthersMark(s: System, p: nat) returns (run: seq<nat>)
    requires forall u | 0 <= u < |s.handlers| :: HasRead(s, s.handlers[u])
    requires p < |s.rows|
    ensures var t := Run(s, run);
            && t.doc == s.doc && |t.rows| == |s.rows| && |t.handlers| == |s.handlers| && t.rows[p] == s.rows[p]
            && (forall i | 0 <= i < |s.rows| :: Active(t.rows[i]) == Active(s.rows[i]) && (s.rows[i].status == Signed ==> t.rows[i].status == Signed))
            && forall u | 0 <= u < |s.handlers| ::
                 && t.handlers[u].target == s.handlers[u].target
                 && t.handlers[u].pc == (if s.handlers[u].pc == Marking && s.handlers[u].target != p then Checking else s.handlers[u].pc)
                 && (s.handlers[u].pc == Marking && s.handlers[u].target != p ==> SignedAt(t, s.handlers[u].target))
  {
    run := [];
    var t, k := s, 0;
    while k < |s.handlers|
      invariant k <= |s.handlers| == |t.handlers|
      invariant t == Run(s, run) && t.doc == s.doc && |t.rows| == |s.rows| && t.rows[p] == s.rows[p]
      invariant forall i | 0 <= i < |s.rows| :: Active(t.rows[i]) == Active(s.rows[i]) && (s.rows[i].status == Signed ==> t.rows[i].status == Signed)
      invariant forall u | 0 <= u < k ::
                  && t.handlers[u].target == s.handlers[u].target
                  && t.handlers[u].pc == (if s.handlers[u].pc == Marking && s.handlers[u].target != p then Checking else s.handlers[u].pc)
                  && (s.handlers[u].pc == Marking && s.handlers[u].target != p ==> SignedAt(t, s.handlers[u].target))
      invariant forall u | k <= u < |s.handlers| :: t.handlers[u] == s.handlers[u]
    {
      assert HasRead(s, s.handlers[k]);
      if t.handlers[k].pc == Marking && t.handlers[k].target != p {
        RunAppend(s, run, k);
        run, t := run + [k], Step(t, k);
      }
      k := k + 1;
    }
  }

  predicate Idle(h: Handler, p: nat) {
    h.pc == Checking || Done(h) || (h.pc == Marking && h.target == p)
  }

  /** While only row p lacks a signature, a checking handler finds it as the next signer. */
  lemma NextIsTheOneLeft(s: System, p: nat)
    requires AllButOne(s, p) && s.rows[p].status in {Pending, Sent}
    ensures !AllSignersSigned(s.rows) && NextPendingSigner(s.rows) == Some(p)
  {
    assert AwaitsNotice(s.rows[p]);
  }

  /** Then the handlers of row p mark it signed as well, while handler h is about to notify it. */
  lemma LastRowMarked(s: System, p: nat, h: nat) returns (run: seq<nat>)
    requires AllButOne(s, p) && h < |s.handlers| && s.handlers[h].pc == Notifying(p)
    requires forall u | 0 <= u < |s.handlers| && u != h :: Idle(s.handlers[u], p)
    ensures var t := Run(s, run);
            && AllButOne(t, p) && |t.handlers| == |s.handlers| && t.handlers[h] == s.handlers[h]
            && forall u | 0 <= u < |s.handlers| && u != h :: t.handlers[u].pc == Checking || Done(t.handlers[u])
  {
    run := [];
    var t, k := s, 0;
    while k < |s.handlers|
      invariant k <= |s.handlers| == |t.handlers|
      invariant t == Run(s, run) && AllButOne(t, p) && t.handlers[h] == s.handlers[h]
      invariant forall u | 0 <= u < k && u != h :: t.handlers[u].pc == Checking || Done(t.handlers[u])
      invariant forall u | k <= u < |s.handlers| && u != h :: Idle(t.handlers[u], p)
    {
      if t.handlers[k].pc == Marking {
        RunAppend(s, run, k);
        run, t := run + [k], Step(t, k);
      }
      k := k + 1;
    }
  }

  /** At the end every handler still checking finds row p unsigned and stops. */
  lemma EveryoneStops(s: System, p: nat) returns (run: seq<nat>)
    requires AllButOne(s, p) && s.rows[p].status == Sent
    requires forall u | 0 <= u < |s.handlers| :: s.handlers[u].pc == Checking || Done(s.handlers[u])
    ensures AllDone(Run(s, run)) && Run(s, run).doc == s.doc
  {
    run := [];
    var t, k := s, 0;
    while k < |s.handlers|
      invariant k <= |s.handlers| == |t.handlers|
      invariant t == Run(s, run) && t.doc == s.doc && t.rows == s.rows
      invariant forall u | 0 <= u < k :: Done(t.handlers[u])
      invariant forall u | k <= u < |s.handlers| :: t.handlers[u] == s.handlers[u]
    {
      if t.handlers[k].pc == Checking {
        NextIsTheOneLeft(t, p);
        RunAppend(s, run, k);
        run, t := run + [k], Step(t, k);
        NextIsTheOneLeft(t, p);
        RunAppend(s, run, k);
        run, t := run + [k], Step(t, k);
      }
      k := k + 1;
    }
  }

  /** Handler h checks and reads row p as the next signer to notify. */
  lemma ReadsTheNextSigner(s: System, p: nat, h: nat)
    requires AllButOne(s, p) && s.rows[p].status == Pending && h < |s.handlers| && s.handlers[h].pc == Checking
    ensures Run(s, [h, h]) == Move(s, h, Notifying(p))
  {
    NextIsTheOneLeft(s, p);
    var s1 := Step(s, h);
    assert s1 == Move(s, h, ReadingNext);
    NextIsTheOneLeft(s1, p);
    assert Step(s1, h) == Move(s, h, Notifying(p));
    assert [h, h][1..] == [h] && [h][1..] == [];
    assert Run(s, [h, h]) == Run(s1, [h]);
  }

  /** Handler h, serving a signer other than p, is about to notify p; nobody has signed row p yet. */
  predicate AboutToNotify(s: System, p: nat, h: nat) {
    && AllButOne(s, p) && h < |s.handlers| && s.handlers[h].pc == Notifying(p)
    && forall u | 0 <= u < |s.handlers| && u != h :: Idle(s.handlers[u], p)
  }

  /** After reading, and marking by the others, only row p is left and nobody stands elsewhere. */
  lemma OthersMarkedShape(s: System, s1: System, s2: System, p: nat)
    requires Initial(s) && s.doc.sequential && p < |s.rows| && Unsigned(s.rows[p])
    requires s1 == s.(handlers := s1.handlers) && |s1.handlers| == |s.handlers|
    requires forall u | 0 <= u < |s.handlers| :: HasRead(s, s1.handlers[u]) && s1.handlers[u] == s.handlers[u].(pc := s1.handlers[u].pc)
    requires s2.doc == s1.doc && |s2.rows| == |s1.rows| && |s2.handlers| == |s1.handlers| && s2.rows[p] == s1.rows[p]
    requires forall i | 0 <= i < |s1.rows| :: Active(s2.rows[i]) == Active(s1.rows[i]) && (s1.rows[i].status == Signed ==> s2.rows[i].status == Signed)
    requires forall u | 0 <= u < |s1.handlers| ::
               && s2.handlers[u].pc == (if s1.handlers[u].pc == Marking && s1.handlers[u].target != p then Checking else s1.handlers[u].pc)
               && s2.handlers[u].target == s1.handlers[u].target
               && (s1.handlers[u].pc == Marking && s1.handlers[u].target != p ==> SignedAt(s2, s1.handlers[u].target))
    ensures AllButOne(s2, p) && forall u | 0 <= u < |s2.handlers| :: Idle(s2.handlers[u], p)
  {
    forall i | 0 <= i < |s2.rows| && i != p && Active(s2.rows[i])
      ensures s2.rows[i].status == Signed
    {
      assert Served(s, i);
      var u :| 0 <= u < |s.handlers| && s.handlers[u].target == i;
      assert HasRead(s, s1.handlers[u]);
    }
    forall u | 0 <= u < |s2.handlers|
      ensures Idle(s2.handlers[u], p)
    {
      assert HasRead(s, s1.handlers[u]);
    }
  }

  lemma ReachNotice(s: System, p: nat, q: nat) returns (run: seq<nat>, h: nat)
    requires Initial(s) && s.doc.sequential && p < |s.rows| && q < |s.rows| && p != q
    requires Unsigned(s.rows[p]) && Unsigned(s.rows[q]) && s.rows[p].status == Pending
    ensures AboutToNotify(Run(s, run), p, h)
  {
    assert Served(s, q);
    h :| 0 <= h < |s.handlers| && s.handlers[h].target == q;
    var run1 := EveryoneReads(s);
    var s1 := Run(s, run1);
    assert HasRead(s, s1.handlers[h]);
    var run2 := OthersMark(s1, p);
    var s2 := Run(s1, run2);
    OthersMarkedShape(s, s1, s2, p);
    ReadsTheNextSigner(s2, p, h);
    RunConcat(s, run1, run2);
    RunConcat(s, run1 + run2, [h, h]);
    run := run1 + run2 + [h, h];
  }

  lemma NoticeOverwrites(s: System, p: nat, h: nat) returns (run: seq<nat>)
    requires AboutToNotify(s, p, h)
    ensures AllDone(Run(s, run)) && Run(s, run).doc.status == DocSent
  {
    var run1 := LastRowMarked(s, p, h);
    var s1 := Run(s, run1);
    var s2 := Step(s1, h);
    assert AllButOne(s2, p);
    var run2 := EveryoneStops(s2, p);
    RunAppend(s, run1, h);
    RunConcat(s, run1 + [h], run2);
    run := run1 + [h] + run2;
  }

  /**
   With sequential routing and a signer still to be notified, some schedule of complete handlers
   leaves the document out: the notice of that signer is written over the signature.
   */
  lemma LateNoticeLosesCompletion(s: System) returns (run: seq<nat>)
    requires Initial(s) && LateNoticePossible(s)
    ensures AllDone(Run(s, run)) && Run(s, run).doc.status == DocSent
  {
    var p :| 0 <= p < |s.rows| && PendingBesides(s.rows, p);
    var q :| 0 <= q < |s.rows| && q != p && Unsigned(s.rows[q]);
    var run1, h := ReachNotice(s, p, q);
    var run2 := NoticeOverwrites(Run(s, run1), p, h);
    RunConcat(s, run1, run2);
    run := run1 + run2;
  }

  lemma WhyNoLateNotice(s: System) returns (why: Reason)
    requires Initial(s) && !LateNoticePossible(s)
    ensures Holds(s, why)
  {
    if !s.doc.sequential {
      why := ParallelRouting;
    } else if NonePending(s.rows) {
      why := NobodyToNotify;
    } else {
      var p :| 0 <= p < |s.rows| && Active(s.rows[p]) && s.rows[p].status == Pending;
      assert !PendingBesides(s.rows, p);
      why := LoneSigner(p);
    }
  }

  /**
   Exactly-once completion. For any number of handlers, every signer submitting at least once,
   every schedule that runs them all to the end completes the document, all signers signed, with
   exactly one stored PDF that shows their marks, if and only if no late notice is possible.
   */
  lemma ExactlyOnceIff(s: System)
    requires Initial(s)
    ensures (forall run | AllDone(Run(s, run)) :: CompletedOnce(s, Run(s, run))) <==> !LateNoticePossible(s)
  {
    if LateNoticePossible(s) {
      var run := LateNoticeLosesCompletion(s);
      assert !CompletedOnce(s, Run(s, run));
    } else {
      var why := WhyNoLateNotice(s);
      forall run | AllDone(Run(s, run))
        ensures CompletedOnce(s, Run(s, run))
      {
        AlwaysCompletes(s, why, run);
      }
    }
  }
}

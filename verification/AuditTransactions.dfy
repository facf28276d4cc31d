/**
 The append transactions of server/auditLog.ts one by one: what a transaction that is not disturbed
 leaves, that others cannot disturb it, and that in every run each committed batch is one that a
 client locked the table for and did not give up, no two at the same time.
 */
module AuditTransactions {
  import opened Wrappers
  import opened HashChain
  import opened AuditAppend

  lemma {:induction false} RunAppend(c: Services, d: Database, steps: seq<Step>, last: Step)
    ensures Run(c, d, steps + [last]) == Next(c, Run(c, d, steps), last)
    decreases |steps|
  {
    hide Next;
    if steps == [] {
      assert steps + [last] == [last] && [last][1..] == [];
    } else {
      assert (steps + [last])[1..] == steps[1..] + [last];
      RunAppend(c, Next(c, d, steps[0]), steps[1..], last);
    }
  }

  // ----- one transaction -----

  /** While a client holds the lock nobody else changes anything. */
  lemma OthersWait(c: Services, d: Database, step: Step)
    requires d.holder.Some? && step.client != d.holder.value.client
    ensures Next(c, d, step) == d
  {
  }

  /** What the surroundings decide for one insert, the row id aside. */
  datatype Draw = Draw(time: int, key: Option<string>, iv: string)

  function Inserts(client: int, draws: seq<Draw>): (r: seq<Step>)
    ensures |r| == |draws| && forall i | 0 <= i < |draws| :: r[i] == Insert(client, draws[i].time, draws[i].key, draws[i].iv)
  {
    seq(|draws|, i requires 0 <= i < |draws| => Insert(client, draws[i].time, draws[i].key, draws[i].iv))
  }

  /** The stamps of these inserts, the ids counted from the next free one. */
  function StampsOf(draws: seq<Draw>, firstId: int): (r: seq<Stamp>)
    ensures |r| == |draws| && forall i | 0 <= i < |draws| :: r[i] == Stamp(firstId + i, draws[i].time, draws[i].key, draws[i].iv)
  {
    seq(|draws|, i requires 0 <= i < |draws| => Stamp(firstId + i, draws[i].time, draws[i].key, draws[i].iv))
  }

  /** The client has locked the table of d for these entries and inserted some of them. */
  predicate Inserted(d: Database, client: int, entries: seq<AuditEntry>, draws: seq<Draw>, m: Database) {
    && m.committed == d.committed && m.history == d.history && m.nextId == d.nextId + |draws|
    && m.holder.Some? && m.holder.value.client == client && m.holder.value.entries == entries
    && m.holder.value.stamps == StampsOf(draws, d.nextId) && |m.holder.value.inserted| == |draws|
  }

  function Opening(client: int, entries: seq<AuditEntry>, draws: seq<Draw>): seq<Step> { [Lock(client, entries)] + Inserts(client, draws) }

  lemma OneMoreInserted(c: Services, d: Database, client: int, entries: seq<AuditEntry>, draws: seq<Draw>, next: Draw, m: Database)
    requires Inserted(d, client, entries, draws, m) && |draws| < |entries|
    ensures Inserted(d, client, entries, draws + [next], Next(c, m, Insert(client, next.time, next.key, next.iv)))
  {
    hide Written;
    assert StampsOf(draws + [next], d.nextId) == StampsOf(draws, d.nextId) + [Stamp(d.nextId + |draws|, next.time, next.key, next.iv)];
  }

  lemma {:induction false} OpeningRuns(c: Services, d: Database, client: int, entries: seq<AuditEntry>, draws: seq<Draw>)
    requires d.holder.None? && entries != [] && |draws| <= |entries|
    ensures Inserted(d, client, entries, draws, Run(c, d, Opening(client, entries, draws)))
    decreases |draws|
  {
    var steps := Opening(client, entries, draws);
    if draws == [] {
      assert steps == [Lock(client, entries)] && steps[1..] == [];
    } else {
      var n := |draws| - 1;
      var last := steps[n + 1];
      assert steps == Opening(client, entries, draws[..n]) + [last];
      hide Next, Run, Opening, Inserted;
      OpeningRuns(c, d, client, entries, draws[..n]);
      RunAppend(c, d, Opening(client, entries, draws[..n]), last);
      OneMoreInserted(c, d, client, entries, draws[..n], draws[n], Run(c, d, Opening(client, entries, draws[..n])));
      assert draws[..n] + [draws[n]] == draws;
    }
  }

  /** A transaction that inserts all its entries and commits leaves what appending them singly leaves. */
  lemma CommitLeavesAll(c: Services, d: Database, client: int, entries: seq<AuditEntry>, draws: seq<Draw>)
    requires Valid(c, d) && d.holder.None? && entries != [] && |draws| == |entries|
    ensures var e, stamps := Run(c, d, Opening(client, entries, draws) + [Commit(client)]), StampsOf(draws, d.nextId);
            && e.committed == AppendAll(c, d.committed, entries, stamps)
            && e.history == d.history + [Committed(entries, stamps)] && e.holder.None?
  {
    hide AppendAll, Replay, IncreasingIds, Run, Opening;
    OpeningRuns(c, d, client, entries, draws);
    RunKeepsValid(c, d, Opening(client, entries, draws));
    RunAppend(c, d, Opening(client, entries, draws), Commit(client));
    assert entries[..|entries|] == entries;
  }

  /** One that rolls back, however many it has inserted, leaves nothing but a gap in the row ids. */
  lemma RollbackLeavesNothing(c: Services, d: Database, client: int, entries: seq<AuditEntry>, draws: seq<Draw>)
    requires d.holder.None? && entries != [] && |draws| <= |entries|
    ensures Run(c, d, Opening(client, entries, draws) + [Rollback(client)]) == d.(nextId := d.nextId + |draws|)
  {
    OpeningRuns(c, d, client, entries, draws);
    RunAppend(c, d, Opening(client, entries, draws), Rollback(client));
  }

  // ----- whole runs -----

  /** From the lock to the commit of one client. */
  datatype Span = Span(client: int, from: nat, to: nat)

  /** The client locks the table for the entries at one step, and does not roll back before another. */
  predicate Holding(steps: seq<Step>, client: int, entries: seq<AuditEntry>, from: nat, to: nat) {
    from < to <= |steps| && steps[from] == Lock(client, entries) && forall m | from < m < to :: steps[m] != Rollback(client)
  }

  predicate Commits(steps: seq<Step>, batch: Committed, span: Span) {
    Holding(steps, span.client, batch.entries, span.from, span.to) && span.to < |steps| && steps[span.to] == Commit(span.client)
  }

  /** Each batch has its span, and the spans come one after the other. */
  predicate Serial(steps: seq<Step>, history: seq<Committed>, spans: seq<Span>) {
    && |spans| == |history|
    && (forall j | 0 <= j < |history| :: Commits(steps, history[j], spans[j]))
    && forall j | 0 < j < |spans| :: spans[j - 1].to < spans[j].from
  }

  predicate Behind(spans: seq<Span>, from: nat) { spans != [] ==> spans[|spans| - 1].to < from }

  /** A step takes the free lock, keeps it, gives it up, or commits its batch. */
  lemma StepKinds(c: Services, d: Database, step: Step)
    ensures var e := Next(c, d, step);
            if d.holder.None? then
              e.history == d.history && (e.holder.Some? ==> step == Lock(e.holder.value.client, e.holder.value.entries))
            else if e.holder.Some? then
              && e.history == d.history && step != Rollback(d.holder.value.client)
              && e.holder.value.client == d.holder.value.client && e.holder.value.entries == d.holder.value.entries
            else if step == Commit(d.holder.value.client) then
              |e.history| == |d.history| + 1 && e.history[..|d.history|] == d.history && e.history[|d.history|].entries == d.holder.value.entries
            else
              e.history == d.history && step == Rollback(d.holder.value.client)
  {
    hide Written;
  }

  lemma LongerRun(front: seq<Step>, last: Step, history: seq<Committed>, spans: seq<Span>)
    requires Serial(front, history, spans)
    ensures Serial(front + [last], history, spans)
  {
    var steps := front + [last];
    forall j | 0 <= j < |history| ensures Commits(steps, history[j], spans[j]) { assert Commits(front, history[j], spans[j]); }
  }

  lemma OneMoreSpan(steps: seq<Step>, history: seq<Committed>, spans: seq<Span>, longer: seq<Committed>, span: Span)
    requires Serial(steps, history, spans) && |longer| == |history| + 1 && longer[..|history|] == history
    requires Commits(steps, longer[|history|], span) && Behind(spans, span.from)
    ensures Serial(steps, longer, spans + [span])
  {
    hide Commits;
    forall j | 0 <= j < |longer| ensures Commits(steps, longer[j], (spans + [span])[j]) {
      if j < |history| { assert longer[j] == history[j]; }
    }
  }

  lemma {:induction false} SpansOfRun(c: Services, steps: seq<Step>) returns (spans: seq<Span>, from: nat)
    ensures var d := Run(c, EMPTY, steps);
            && Serial(steps, d.history, spans)
            && (d.holder.Some? ==> Holding(steps, d.holder.value.client, d.holder.value.entries, from, |steps|))
            && Behind(spans, if d.holder.Some? then from else |steps|)
    decreases |steps|
  {
    spans, from := [], 0;
    if steps != [] {
      var n := |steps| - 1;
      var front, last := steps[..n], steps[n];
      hide Next, Run, Serial;
      spans, from := SpansOfRun(c, front);
      var d, e := Run(c, EMPTY, front), Run(c, EMPTY, steps);
      assert steps == front + [last];
      RunAppend(c, EMPTY, front, last);
      StepKinds(c, d, last);
      LongerRun(front, last, d.history, spans);
      if d.holder.None? {
        from := n;
      } else if e.holder.None? && last == Commit(d.holder.value.client) {
        var span := Span(d.holder.value.client, from, n);
        OneMoreSpan(steps, d.history, spans, e.history, span);
        spans := spans + [span];
      }
    }
  }

  /**
   In every run of any number of clients each committed batch is one for which a client locked the
   table and which it committed without rolling back, and the times from lock to commit do not overlap.
   */
  lemma CommittedWereLocked(c: Services, steps: seq<Step>)
    ensures exists spans :: Serial(steps, Run(c, EMPTY, steps).history, spans)
  {
    var spans, from := SpansOfRun(c, steps);
    hide *;
  }
}

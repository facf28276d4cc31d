/**
 appendAuditLog and appendAuditLogBatch of server/auditLog.ts: appending under a row lock, and
 why any interleaving of transactions leaves one chain.
 */
module AuditAppend {
  import opened Wrappers
  import opened HashChain
  import J = CanonicalJson

  /** computeRecordHash, encryptPii under a key and an initialisation vector, and what the JSON column gives back. */
  datatype Services = Services(
    recordHash: (Option<string>, AuditEntry, int) -> string,
    encryptPii: (Option<string>, string, Option<string>) -> Option<string>,
    column: J.Json -> J.Json)

  /** What the surroundings decide for one insert: row id, clock, key in force, and the vector drawn. */
  datatype Stamp = Stamp(id: int, time: int, key: Option<string>, iv: string)

  function StoredMetadata(c: Services, m: Option<J.Json>): Option<J.Json> {
    if m.None? || Falsy(m.value) then None else Some(c.column(m.value))
  }

  /** The row written for an entry: hashed with the plain IP address, stored with the sealed one. */
  function Written(c: Services, previousHash: Option<string>, e: AuditEntry, s: Stamp): Record
  {
    Record(s.id, e.eventType, e.entityType, e.entityId, e.organizationId, e.actorUserId,
           c.encryptPii(s.key, s.iv, e.ipAddress),
           StoredMetadata(c, e.metadata),
           previousHash, c.recordHash(previousHash, e, s.time), s.time)
  }

  /** Every column of a row against the entry it was written for. */
  predicate RecordHolds(c: Services, link: Option<string>, e: AuditEntry, s: Stamp, r: Record) {
    && r.id == s.id && r.serverTimestamp == s.time
    && r.eventType == e.eventType && r.entityType == e.entityType && r.entityId == e.entityId
    && r.organizationId == e.organizationId && r.actorUserId == e.actorUserId
    && r.ipAddress == c.encryptPii(s.key, s.iv, e.ipAddress)
    && r.metadata == (match e.metadata
                      case None => None
                      case Some(Undefined) => None
                      case Some(Null) => None
                      case Some(Bool(false)) => None
                      case Some(v) => if v == J.Str("") || v == J.Num("0") then None else Some(c.column(v)))
    && r.previousHash == link && r.recordHash == c.recordHash(link, e, s.time)
  }

  predicate HoldsAt(c: Services, log: seq<Record>, k: nat, e: AuditEntry, s: Stamp) {
    k < |log| && RecordHolds(c, if k == 0 then None else Some(log[k - 1].recordHash), e, s, log[k])
  }

  /** One append, as seen from outside. */
  function AppendOne(c: Services, log: seq<Record>, e: AuditEntry, s: Stamp): seq<Record>
  {
    log + [Written(c, Previous(log, |log|), e, s)]
  }

  /** The fold of single appends over the first n entries. */
  function AppendFirst(c: Services, log: seq<Record>, es: seq<AuditEntry>, ss: seq<Stamp>, n: nat): (r: seq<Record>)
    requires |es| == |ss| && n <= |es|
    ensures |r| == |log| + n
  {
    if n == 0 then log else AppendOne(c, AppendFirst(c, log, es, ss, n - 1), es[n - 1], ss[n - 1])
  }

  function AppendAll(c: Services, log: seq<Record>, es: seq<AuditEntry>, ss: seq<Stamp>): (r: seq<Record>)
    requires |es| == |ss|
    ensures |r| == |log| + |es|
  {
    AppendFirst(c, log, es, ss, |es|)
  }

  // ----- what a fold of appends contains -----

  /** The record at position k is the one written for e when the log reached to there. */
  predicate WrittenAt(c: Services, log: seq<Record>, k: nat, e: AuditEntry, s: Stamp)
  {
    k < |log| && log[k] == Written(c, Previous(log, k), e, s)
  }

  lemma WrittenAtInLonger(c: Services, log: seq<Record>, r: Record, k: nat, e: AuditEntry, s: Stamp)
    requires WrittenAt(c, log, k, e, s)
    ensures WrittenAt(c, log + [r], k, e, s)
  {
    assert (log + [r])[k] == log[k] && Previous(log + [r], k) == Previous(log, k);
  }

  /** Appending changes nothing that is there, and writes the entries in order, each linked to the record before. */
  lemma {:induction false} AppendFirstContents(c: Services, log: seq<Record>, es: seq<AuditEntry>, ss: seq<Stamp>, n: nat)
    requires |es| == |ss| && n <= |es|
    ensures log <= AppendFirst(c, log, es, ss, n)
    ensures forall i {:trigger es[i]} | 0 <= i < n :: WrittenAt(c, AppendFirst(c, log, es, ss, n), |log| + i, es[i], ss[i])
  {
    if n > 0 {
      AppendFirstContents(c, log, es, ss, n - 1);
      var before := AppendFirst(c, log, es, ss, n - 1);
      var r := Written(c, Previous(before, |before|), es[n - 1], ss[n - 1]);
      forall i {:trigger es[i]} | 0 <= i < n
        ensures WrittenAt(c, before + [r], |log| + i, es[i], ss[i])
      {
        if i < n - 1 {
          WrittenAtInLonger(c, before, r, |log| + i, es[i], ss[i]);
        } else {
          assert Previous(before + [r], |before|) == Previous(before, |before|);
        }
      }
    }
  }

  lemma {:induction false} AppendFirstDependsOnFirst(c: Services, log: seq<Record>, es: seq<AuditEntry>, ss: seq<Stamp>, fs: seq<AuditEntry>, ts: seq<Stamp>, n: nat)
    requires |es| == |ss| && |fs| == |ts| && n <= |es| && n <= |fs|
    requires es[..n] == fs[..n] && ss[..n] == ts[..n]
    ensures AppendFirst(c, log, es, ss, n) == AppendFirst(c, log, fs, ts, n)
  {
    if n > 0 {
      assert es[..n - 1] == es[..n][..n - 1] && fs[..n - 1] == fs[..n][..n - 1];
      assert ss[..n - 1] == ss[..n][..n - 1] && ts[..n - 1] == ts[..n][..n - 1];
      AppendFirstDependsOnFirst(c, log, es, ss, fs, ts, n - 1);
      assert es[n - 1] == es[..n][n - 1] && fs[n - 1] == fs[..n][n - 1];
      assert ss[n - 1] == ss[..n][n - 1] && ts[n - 1] == ts[..n][n - 1];
    }
  }

  lemma {:induction false} AppendFirstJoins(c: Services, log: seq<Record>, es: seq<AuditEntry>, ss: seq<Stamp>, fs: seq<AuditEntry>, ts: seq<Stamp>, n: nat)
    requires |es| == |ss| && |fs| == |ts| && n <= |fs|
    ensures AppendFirst(c, AppendAll(c, log, es, ss), fs, ts, n) == AppendFirst(c, log, es + fs, ss + ts, |es| + n)
  {
    if n == 0 {
      assert (es + fs)[..|es|] == es[..|es|] && (ss + ts)[..|es|] == ss[..|es|];
      AppendFirstDependsOnFirst(c, log, es, ss, es + fs, ss + ts, |es|);
    } else {
      AppendFirstJoins(c, log, es, ss, fs, ts, n - 1);
    }
  }

  /** Appending twice is appending once. */
  lemma AppendAllJoins(c: Services, log: seq<Record>, es: seq<AuditEntry>, ss: seq<Stamp>, fs: seq<AuditEntry>, ts: seq<Stamp>)
    requires |es| == |ss| && |fs| == |ts|
    ensures AppendAll(c, AppendAll(c, log, es, ss), fs, ts) == AppendAll(c, log, es + fs, ss + ts)
  {
    AppendFirstJoins(c, log, es, ss, fs, ts, |fs|);
  }

  lemma BatchOfOne(c: Services, log: seq<Record>, e: AuditEntry, s: Stamp)
    ensures AppendAll(c, log, [e], [s]) == AppendOne(c, log, e, s)
  {
    assert AppendFirst(c, log, [e], [s], 0) == log;
  }

  // ----- the table, with appends one after the other -----

  class AuditLog {
    var rows: seq<Record>

    constructor ()
      ensures rows == []
    {
      rows := [];
    }

    /** One entry; a failing insert is rolled back. */
    method Append(c: Services, entry: AuditEntry, stamp: Stamp, fails: bool) returns (recordHash: Option<string>)
      modifies this
      ensures rows == if fails then old(rows) else AppendOne(c, old(rows), entry, stamp)
      ensures recordHash == if fails then None else Previous(rows, |rows|)
      ensures !fails ==>
                && |rows| == |old(rows)| + 1 && old(rows) <= rows
                && RecordHolds(c, if old(rows) == [] then None else Some(old(rows)[|old(rows)| - 1].recordHash), entry, stamp, rows[|rows| - 1])
    {
      var previousHash := if |rows| > 0 then Some(rows[|rows| - 1].recordHash) else None;
      var record := Written(c, previousHash, entry, stamp);
      if fails { return None; }
      rows := rows + [record];
      return Some(record.recordHash);
    }

    /**
     A batch reads the last hash once and then chains in memory; it is the fold of single
     appends, or nothing when any insert fails.
     */
    method AppendBatch(c: Services, entries: seq<AuditEntry>, stamps: seq<Stamp>, failsAt: Option<nat>) returns (ok: bool)
      requires |stamps| == |entries|
      modifies this
      ensures ok <==> failsAt.None? || failsAt.value >= |entries|
      ensures rows == if ok then AppendAll(c, old(rows), entries, stamps) else old(rows)
    {
      if |entries| == 0 { return true; }
      var inserted := rows;
      var previousHash := if |rows| > 0 then Some(rows[|rows| - 1].recordHash) else None;
      var k := 0;
      while k < |entries|
        invariant k <= |entries| && rows == old(rows)
        invariant inserted == AppendFirst(c, rows, entries, stamps, k)
        invariant previousHash == Previous(inserted, |inserted|)
        invariant failsAt.Some? ==> k <= failsAt.value
      {
        if failsAt == Some(k) { return false; }
        var record := Written(c, previousHash, entries[k], stamps[k]);
        inserted := inserted + [record];
        previousHash := Some(record.recordHash);
        k := k + 1;
      }
      rows := inserted;
      return true;
    }
  }

  // ----- interleaved transactions -----

  /** The transaction that holds the row lock. */
  datatype Transaction = Transaction(client: int, entries: seq<AuditEntry>, stamps: seq<Stamp>, previousHash: Option<string>, inserted: seq<Record>)

  /** A transaction that committed: its entries, and what the surroundings decided for them. */
  datatype Committed = Committed(entries: seq<AuditEntry>, stamps: seq<Stamp>)

  datatype Database = Database(committed: seq<Record>, nextId: int, holder: Option<Transaction>, history: seq<Committed>)

  datatype Step =
    | Lock(client: int, entries: seq<AuditEntry>)
    | Insert(client: int, time: int, key: Option<string>, iv: string)
    | Commit(client: int)
    | Rollback(client: int)

  /** SELECT recordHash ... ORDER BY id DESC LIMIT 1: the row with the greatest id. */
  function Latest(rows: seq<Record>): (r: Option<Record>)
    ensures r.None? <==> rows == []
  {
    if rows == [] then None
    else
      var rest := Latest(rows[1..]);
      if rest.None? || rest.value.id < rows[0].id then Some(rows[0]) else rest
  }

  function LatestHash(rows: seq<Record>): Option<string> {
    var r := Latest(rows);
    if r.None? then None else Some(r.value.recordHash)
  }

  predicate Holds(d: Database, client: int) { d.holder.Some? && d.holder.value.client == client }

  /**
   One step of some client. Whoever asks for the lock while it is held waits, and steps of a
   client that does not hold it do not happen; the id counter is never taken back.
   */
  function Next(c: Services, d: Database, step: Step): Database {
    match step
    case Lock(client, entries) =>
      if d.holder.Some? || entries == [] then d
      else d.(holder := Some(Transaction(client, entries, [], LatestHash(d.committed), [])))
    case Insert(client, time, key, iv) =>
      if !Holds(d, client) || |d.holder.value.inserted| >= |d.holder.value.entries| then d
      else
        var t := d.holder.value;
        var s := Stamp(d.nextId, time, key, iv);
        var record := Written(c, t.previousHash, t.entries[|t.inserted|], s);
        d.(nextId := d.nextId + 1,
           holder := Some(t.(stamps := t.stamps + [s], inserted := t.inserted + [record], previousHash := Some(record.recordHash))))
    case Commit(client) =>
      if !Holds(d, client) || |d.holder.value.inserted| != |d.holder.value.entries| then d
      else
        var t := d.holder.value;
        d.(committed := d.committed + t.inserted, holder := None, history := d.history + [Committed(t.entries, t.stamps)])
    case Rollback(client) =>
      if !Holds(d, client) then d else d.(holder := None)
  }

  predicate GoodHistory(history: seq<Committed>) {
    forall i | 0 <= i < |history| :: |history[i].entries| == |history[i].stamps|
  }

  /** The first n committed transactions run one after the other, in the order of their commits. */
  function Replay(c: Services, history: seq<Committed>, n: nat): seq<Record>
    requires GoodHistory(history) && n <= |history|
  {
    if n == 0 then []
    else AppendAll(c, Replay(c, history, n - 1), history[n - 1].entries, history[n - 1].stamps)
  }

  lemma {:induction false} ReplayDependsOnFirst(c: Services, a: seq<Committed>, b: seq<Committed>, n: nat)
    requires GoodHistory(a) && GoodHistory(b) && n <= |a| <= |b| && forall i | 0 <= i < |a| :: a[i] == b[i]
    ensures Replay(c, a, n) == Replay(c, b, n)
  {
    if n > 0 { ReplayDependsOnFirst(c, a, b, n - 1); }
  }

  lemma ReplayOneMore(c: Services, history: seq<Committed>, t: Committed)
    requires GoodHistory(history) && |t.entries| == |t.stamps|
    ensures var longer := history + [t];
            && GoodHistory(longer)
            && Replay(c, longer, |longer|) == AppendAll(c, Replay(c, history, |history|), t.entries, t.stamps)
  {
    ReplayDependsOnFirst(c, history, history + [t], |history|);
  }

  predicate IncreasingIds(rows: seq<Record>, nextId: int) {
    && (forall i, j | 0 <= i < j < |rows| :: rows[i].id < rows[j].id)
    && forall i | 0 <= i < |rows| :: rows[i].id < nextId
  }

  /** What holds of the transaction under way: it has appended its first entries to the committed log. */
  predicate UnderWay(c: Services, committed: seq<Record>, t: Transaction) {
    && |t.stamps| == |t.inserted| <= |t.entries|
    && committed + t.inserted == AppendAll(c, committed, t.entries[..|t.stamps|], t.stamps)
    && t.previousHash == Previous(committed + t.inserted, |committed + t.inserted|)
  }

  predicate Valid(c: Services, d: Database) {
    && GoodHistory(d.history)
    && d.committed == Replay(c, d.history, |d.history|)
    && IncreasingIds(d.committed + if d.holder.Some? then d.holder.value.inserted else [], d.nextId)
    && (d.holder.Some? ==> UnderWay(c, d.committed, d.holder.value))
  }

  lemma {:induction false} LatestIsLast(rows: seq<Record>, nextId: int)
    requires IncreasingIds(rows, nextId)
    ensures LatestHash(rows) == Previous(rows, |rows|)
  {
    if |rows| > 1 {
      LatestIsLast(rows[1..], nextId);
      LatestInside(rows[1..]);
    }
  }

  lemma {:induction false} LatestInside(rows: seq<Record>)
    requires rows != []
    ensures exists i | 0 <= i < |rows| :: Latest(rows).value == rows[i]
  {
    if Latest(rows).value != rows[0] {
      LatestInside(rows[1..]);
      var i :| 0 <= i < |rows[1..]| && Latest(rows[1..]).value == rows[1..][i];
      assert rows[i + 1] == rows[1..][i];
    } else {
      assert Latest(rows).value == rows[0];
    }
  }

  lemma LockKeepsValid(c: Services, d: Database, client: int, entries: seq<AuditEntry>)
    requires Valid(c, d)
    ensures Valid(c, Next(c, d, Lock(client, entries)))
  {
    if d.holder.None? && entries != [] {
      assert d.committed + [] == d.committed;
      LatestIsLast(d.committed, d.nextId);
      assert entries[..0] == [];
    }
  }

  lemma InsertKeepsUnderWay(c: Services, committed: seq<Record>, t: Transaction, s: Stamp)
    requires UnderWay(c, committed, t) && |t.inserted| < |t.entries|
    ensures var record := Written(c, t.previousHash, t.entries[|t.inserted|], s);
            UnderWay(c, committed, t.(stamps := t.stamps + [s], inserted := t.inserted + [record], previousHash := Some(record.recordHash)))
  {
    var n := |t.inserted|;
    var record := Written(c, t.previousHash, t.entries[n], s);
    assert committed + (t.inserted + [record]) == (committed + t.inserted) + [record];
    assert t.entries[..n + 1] == t.entries[..n] + [t.entries[n]];
    AppendAllJoins(c, committed, t.entries[..n], t.stamps, [t.entries[n]], [s]);
    BatchOfOne(c, committed + t.inserted, t.entries[n], s);
  }

  lemma InsertKeepsValid(c: Services, d: Database, client: int, time: int, key: Option<string>, iv: string)
    requires Valid(c, d)
    ensures Valid(c, Next(c, d, Insert(client, time, key, iv)))
  {
    if Holds(d, client) && |d.holder.value.inserted| < |d.holder.value.entries| {
      var t := d.holder.value;
      var s := Stamp(d.nextId, time, key, iv);
      InsertKeepsUnderWay(c, d.committed, t, s);
      var record := Written(c, t.previousHash, t.entries[|t.inserted|], s);
      IncreasingOneMore(d.committed + t.inserted, d.nextId, record);
      assert d.committed + (t.inserted + [record]) == (d.committed + t.inserted) + [record];
    }
  }

  lemma IncreasingOneMore(rows: seq<Record>, nextId: int, r: Record)
    requires IncreasingIds(rows, nextId) && r.id == nextId
    ensures IncreasingIds(rows + [r], nextId + 1)
  {
  }

  lemma IncreasingBefore(rows: seq<Record>, more: seq<Record>, nextId: int)
    requires IncreasingIds(rows + more, nextId)
    ensures IncreasingIds(rows, nextId)
  {
    forall i | 0 <= i < |rows| ensures (rows + more)[i] == rows[i] {}
  }

  lemma CommitKeepsValid(c: Services, d: Database, client: int)
    requires Valid(c, d)
    ensures Valid(c, Next(c, d, Commit(client)))
  {
    if Holds(d, client) && |d.holder.value.inserted| == |d.holder.value.entries| {
      var t := d.holder.value;
      var d' := Next(c, d, Commit(client));
      assert t.entries[..|t.stamps|] == t.entries;
      ReplayOneMore(c, d.history, Committed(t.entries, t.stamps));
      assert d'.committed + [] == d'.committed;
    }
  }

  lemma RollbackKeepsValid(c: Services, d: Database, client: int)
    requires Valid(c, d)
    ensures Valid(c, Next(c, d, Rollback(client)))
  {
    if Holds(d, client) {
      IncreasingBefore(d.committed, d.holder.value.inserted, d.nextId);
      assert d.committed + [] == d.committed;
    }
  }

  lemma NextKeepsValid(c: Services, d: Database, step: Step)
    requires Valid(c, d)
    ensures Valid(c, Next(c, d, step))
  {
    match step
    case Lock(client, entries) => LockKeepsValid(c, d, client, entries);
    case Insert(client, time, key, iv) => InsertKeepsValid(c, d, client, time, key, iv);
    case Commit(client) => CommitKeepsValid(c, d, client);
    case Rollback(client) => RollbackKeepsValid(c, d, client);
  }

  function Run(c: Services, d: Database, steps: seq<Step>): Database
    decreases |steps|
  {
    if steps == [] then d else Run(c, Next(c, d, steps[0]), steps[1..])
  }

  lemma {:induction false} RunKeepsValid(c: Services, d: Database, steps: seq<Step>)
    requires Valid(c, d)
    ensures Valid(c, Run(c, d, steps))
    decreases |steps|
  {
    if steps != [] {
      NextKeepsValid(c, d, steps[0]);
      RunKeepsValid(c, Next(c, d, steps[0]), steps[1..]);
    }
  }

  const EMPTY: Database := Database([], 1, None, [])

  /** The entries of the first n committed transactions. */
  function AllEntries(history: seq<Committed>, n: nat): seq<AuditEntry>
    requires n <= |history|
  {
    if n == 0 then [] else AllEntries(history, n - 1) + history[n - 1].entries
  }

  function AllStamps(history: seq<Committed>, n: nat): seq<Stamp>
    requires n <= |history|
  {
    if n == 0 then [] else AllStamps(history, n - 1) + history[n - 1].stamps
  }

  lemma {:induction false} ReplayIsOneFold(c: Services, history: seq<Committed>, n: nat)
    requires GoodHistory(history) && n <= |history|
    ensures |AllEntries(history, n)| == |AllStamps(history, n)|
    ensures Replay(c, history, n) == AppendAll(c, [], AllEntries(history, n), AllStamps(history, n))
  {
    if n > 0 {
      ReplayIsOneFold(c, history, n - 1);
      AppendAllJoins(c, [], AllEntries(history, n - 1), AllStamps(history, n - 1), history[n - 1].entries, history[n - 1].stamps);
    }
  }

  /** The entries and stamps of a database's committed transactions, in the order of the commits. */
  function Entries(d: Database): seq<AuditEntry> { AllEntries(d.history, |d.history|) }

  function Stamps(d: Database): seq<Stamp> { AllStamps(d.history, |d.history|) }

  /**
   However the transactions of any number of clients interleave, the committed log is the one
   that their committed transactions leave when each entry is appended singly, one after the
   other in the order of the commits; its row ids increase.
   */
  lemma InterleavedIsSerial(c: Services, steps: seq<Step>)
    ensures var d := Run(c, EMPTY, steps);
            && |Entries(d)| == |Stamps(d)|
            && d.committed == AppendAll(c, [], Entries(d), Stamps(d))
            && forall i, j | 0 <= i < j < |d.committed| :: d.committed[i].id < d.committed[j].id
  {
    var d := Run(c, EMPTY, steps);
    RunKeepsValid(c, EMPTY, steps);
    ReplayIsOneFold(c, d.history, |d.history|);
    IncreasingBefore(d.committed, if d.holder.Some? then d.holder.value.inserted else [], d.nextId);
  }

  /** In every reachable state the committed log is one chain from the start, each record written for its entry. */
  lemma OneChain(c: Services, steps: seq<Step>)
    ensures var d := Run(c, EMPTY, steps); Explains(c, Entries(d), Stamps(d), d.committed)
    ensures var d := Run(c, EMPTY, steps);
            |Entries(d)| == |Stamps(d)| == |d.committed|
            && forall k {:trigger Entries(d)[k]} | 0 <= k < |d.committed| :: HoldsAt(c, d.committed, k, Entries(d)[k], Stamps(d)[k])
  {
    var d := Run(c, EMPTY, steps);
    InterleavedIsSerial(c, steps);
    FoldIsExplained(c, Entries(d), Stamps(d));
    forall k {:trigger Entries(d)[k]} | 0 <= k < |d.committed|
      ensures HoldsAt(c, d.committed, k, Entries(d)[k], Stamps(d)[k])
    {
      assert WrittenAt(c, d.committed, k, Entries(d)[k], Stamps(d)[k]);
    }
  }

  /** Record k is the one written for entry k, linked to the record before; there are no others. */
  predicate Explains(c: Services, es: seq<AuditEntry>, ss: seq<Stamp>, log: seq<Record>) {
    && |log| == |es| == |ss|
    && forall k {:trigger es[k]} | 0 <= k < |log| :: WrittenAt(c, log, k, es[k], ss[k])
  }

  lemma FoldIsExplained(c: Services, es: seq<AuditEntry>, ss: seq<Stamp>)
    requires |es| == |ss|
    ensures Explains(c, es, ss, AppendAll(c, [], es, ss))
  {
    var log := AppendAll(c, [], es, ss);
    AppendFirstContents(c, [], es, ss, |es|);
    forall k {:trigger es[k]} | 0 <= k < |log| ensures WrittenAt(c, log, k, es[k], ss[k]) {
      assert WrittenAt(c, log, 0 + k, es[k], ss[k]);
    }
  }

  /** The records of t lie together in the log from position at on, in order and chained. */
  predicate LiesAt(c: Services, log: seq<Record>, at: nat, t: Committed)
    requires |t.entries| == |t.stamps|
  {
    forall i {:trigger t.entries[i]} | 0 <= i < |t.entries| :: WrittenAt(c, log, at + i, t.entries[i], t.stamps[i])
  }

  lemma LiesAtInLonger(c: Services, a: seq<Record>, b: seq<Record>, at: nat, t: Committed)
    requires |t.entries| == |t.stamps|
    requires LiesAt(c, a, at, t) && a <= b
    ensures LiesAt(c, b, at, t)
  {
    forall i {:trigger t.entries[i]} | 0 <= i < |t.entries|
      ensures WrittenAt(c, b, at + i, t.entries[i], t.stamps[i])
    {
      assert WrittenAt(c, a, at + i, t.entries[i], t.stamps[i]);
      assert b[at + i] == a[at + i] && Previous(b, at + i) == Previous(a, at + i);
    }
  }

  lemma LastLies(c: Services, log: seq<Record>, t: Committed)
    requires |t.entries| == |t.stamps|
    ensures log <= AppendAll(c, log, t.entries, t.stamps) && LiesAt(c, AppendAll(c, log, t.entries, t.stamps), |log|, t)
  {
    AppendFirstContents(c, log, t.entries, t.stamps, |t.entries|);
  }

  /** Nothing of another transaction comes between the records of a committed one. */
  lemma {:induction false} BatchesContiguous(c: Services, history: seq<Committed>, n: nat, j: nat)
    requires GoodHistory(history) && j < n <= |history|
    ensures LiesAt(c, Replay(c, history, n), |Replay(c, history, j)|, history[j])
  {
    hide LiesAt, AppendAll;
    LastLies(c, Replay(c, history, n - 1), history[n - 1]);
    if j < n - 1 {
      BatchesContiguous(c, history, n - 1, j);
      LiesAtInLonger(c, Replay(c, history, n - 1), Replay(c, history, n), |Replay(c, history, j)|, history[j]);
    }
  }

  /** So in every reachable state the records of each committed transaction lie together in the committed log. */
  lemma CommittedBatchesContiguous(c: Services, steps: seq<Step>, j: nat)
    requires j < |Run(c, EMPTY, steps).history|
    ensures var d := Run(c, EMPTY, steps);
            && GoodHistory(d.history)
            && d.committed == Replay(c, d.history, |d.history|)
            && LiesAt(c, d.committed, |Replay(c, d.history, j)|, d.history[j])
  {
    var d := Run(c, EMPTY, steps);
    RunKeepsValid(c, EMPTY, steps);
    BatchesContiguous(c, d.history, |d.history|, j);
  }
}

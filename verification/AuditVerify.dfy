/** verifyHashChainIntegrity of server/auditLog.ts: paged verification of the hash chain. */
module AuditVerify {
  import opened Wrappers
  import opened HashChain
  import PiiEncryption

  datatype IntegrityReport = IntegrityReport(
    totalRecords: nat,
    verifiedRecords: nat,
    unverifiableRecords: nat,
    brokenAt: Option<int>,
    isIntact: bool)

  /** The hash function, the decryption of IP addresses, and whether the whole chain is checked. */
  datatype Verifier = Verifier(hash: string -> string, decrypt: Decryption, global: bool)

  /** The IP address cannot be decrypted, so the hash cannot be recomputed. */
  predicate Unverifiable(v: Verifier, r: Record) { v.decrypt(r.ipAddress) == Some(PiiEncryption.MASK) }

  /** The record raises no objection: globally its link is checked, in any case its hash. */
  predicate RecordPasses(v: Verifier, previousHash: Option<string>, r: Record)
    requires GoodRecord(r)
  {
    && (v.global ==> r.previousHash == previousHash)
    && (Unverifiable(v, r) || HashMatches(v.hash, r.previousHash, r, v.decrypt))
  }

  predicate Passes(v: Verifier, log: seq<Record>, k: nat)
    requires GoodLog(log) && k < |log|
  {
    RecordPasses(v, Previous(log, k), log[k])
  }

  /** The first record from k on that does not pass, or the end. */
  function FirstBad(v: Verifier, log: seq<Record>, k: nat): (b: nat)
    requires GoodLog(log) && k <= |log|
    ensures k <= b <= |log|
    ensures b < |log| ==> !Passes(v, log, b)
    ensures forall i {:trigger Passes(v, log, i)} | k <= i < b :: Passes(v, log, i)
    decreases |log| - k
  {
    if k == |log| || !Passes(v, log, k) then k else FirstBad(v, log, k + 1)
  }

  function CountUnverifiable(v: Verifier, log: seq<Record>, n: nat): (c: nat)
    requires n <= |log|
    ensures c <= n
  {
    if n == 0 then 0 else CountUnverifiable(v, log, n - 1) + if Unverifiable(v, log[n - 1]) then 1 else 0
  }

  /** The report of one left-to-right pass, said without a pass. */
  function ReportOf(v: Verifier, log: seq<Record>): IntegrityReport
    requires GoodLog(log)
  {
    var b := FirstBad(v, log, 0);
    var unverifiable := CountUnverifiable(v, log, b);
    if b == |log| then IntegrityReport(b, b - unverifiable, unverifiable, None, true)
    else IntegrityReport(b + 1, b - unverifiable, unverifiable, Some(log[b].id), false)
  }

  /** WHERE organizationId = ?, or all rows; an organization id of 0 counts as none. */
  predicate Scoped(organizationId: Option<int>) { organizationId.Some? && organizationId.value != 0 }

  function Selected(rows: seq<Record>, organizationId: Option<int>): (r: seq<Record>)
    ensures GoodLog(rows) ==> GoodLog(r)
    ensures !Scoped(organizationId) ==> r == rows
    ensures forall x :: x in r ==> x in rows
  {
    if rows == [] then []
    else
      var rest := Selected(rows[1..], organizationId);
      assert rows == [rows[0]] + rows[1..];
      if !Scoped(organizationId) || rows[0].organizationId == organizationId then [rows[0]] + rest else rest
  }

  function Min(a: nat, b: nat): nat { if a < b then a else b }

  /** SELECT ... ORDER BY id LIMIT batchSize OFFSET offset, on a table that does not change. */
  function Page(log: seq<Record>, batchSize: nat, offset: nat): seq<Record> {
    log[Min(offset, |log|)..Min(offset + batchSize, |log|)]
  }

  datatype Verdict = Broken | Skipped | Verified

  /** The checks on one record, in the order they are made. */
  method CheckRecord(v: Verifier, previousHash: Option<string>, record: Record) returns (verdict: Verdict)
    requires GoodRecord(record)
    ensures verdict == Broken <==> !RecordPasses(v, previousHash, record)
    ensures verdict != Broken ==> (verdict == Skipped <==> Unverifiable(v, record))
  {
    if v.global && record.previousHash != previousHash { return Broken; }
    var ip := v.decrypt(record.ipAddress);
    if ip == Some(PiiEncryption.MASK) { return Skipped; }
    var entry := AuditEntry(record.eventType, record.entityType, record.entityId, record.organizationId,
                            record.actorUserId, ip, record.metadata);
    var expected := RecordHash(v.hash, record.previousHash, entry, record.serverTimestamp);
    return if record.recordHash == expected then Verified else Broken;
  }

  /** What is known when the first n records have passed. */
  predicate Scanned(v: Verifier, log: seq<Record>, n: nat, unverifiable: nat, verified: nat)
    requires GoodLog(log)
  {
    && n <= |log|
    && unverifiable == CountUnverifiable(v, log, n) && verified == n - unverifiable
    && forall i {:trigger Passes(v, log, i)} | 0 <= i < n :: Passes(v, log, i)
  }

  lemma ScannedOneMore(v: Verifier, log: seq<Record>, n: nat, unverifiable: nat, verified: nat)
    requires GoodLog(log) && 0 < n <= |log| && Passes(v, log, n - 1)
    requires if Unverifiable(v, log[n - 1]) then unverifiable > 0 && Scanned(v, log, n - 1, unverifiable - 1, verified)
             else verified > 0 && Scanned(v, log, n - 1, unverifiable, verified - 1)
    ensures Scanned(v, log, n, unverifiable, verified)
  {
  }

  lemma PageHolds(log: seq<Record>, batchSize: nat, offset: nat, k: nat)
    requires k < |Page(log, batchSize, offset)|
    ensures offset + k < |log| && Page(log, batchSize, offset)[k] == log[offset + k]
  {
  }

  /** The two loops, over the pages of the selected rows and over the records of a page. */
  method ScanPages(v: Verifier, log: seq<Record>, batchSize: nat) returns (report: IntegrityReport)
    requires GoodLog(log)
    ensures batchSize >= 1 ==> report == ReportOf(v, log)
    ensures batchSize == 0 ==> report == IntegrityReport(0, 0, 0, None, true)
  {
    hide ReportOf, Unverifiable;
    var offset, total, verified, unverifiable := 0, 0, 0, 0;
    var previousHash: Option<string> := None;
    while true
      invariant batchSize == 0 ==> offset == 0
      invariant total == Min(offset, |log|) && Scanned(v, log, total, unverifiable, verified)
      invariant v.global ==> previousHash == Previous(log, total)
      decreases if offset < |log| then |log| - offset else 0
    {
      var batch := Page(log, batchSize, offset);
      if |batch| == 0 { break; }
      var k := 0;
      while k < |batch|
        invariant k <= |batch| && total == offset + k && Scanned(v, log, total, unverifiable, verified)
        invariant v.global ==> previousHash == Previous(log, total)
      {
        var record := batch[k];
        PageHolds(log, batchSize, offset, k);
        var verdict := CheckRecord(v, previousHash, record);
        total := total + 1;
        if verdict == Broken {
          BrokenReport(v, log, total - 1, unverifiable, verified);
          return IntegrityReport(total, verified, unverifiable, Some(record.id), false);
        }
        if verdict == Skipped { unverifiable := unverifiable + 1; } else { verified := verified + 1; }
        ScannedOneMore(v, log, total, unverifiable, verified);
        if v.global { previousHash := Some(record.recordHash); }
        k := k + 1;
      }
      offset := offset + batchSize;
    }
    if batchSize > 0 { IntactReport(v, log, unverifiable, verified); }
    return IntegrityReport(total, verified, unverifiable, None, true);
  }

  /**
   For any page size of at least one, paging gives the report of the single pass. (With a page
   size of zero the first page is empty, and everything is reported intact.)
   */
  method VerifyHashChainIntegrity(rows: seq<Record>, organizationId: Option<int>, batchSize: nat,
                                  hash: string -> string, decrypt: Decryption) returns (report: IntegrityReport)
    requires GoodLog(rows)
    ensures batchSize >= 1 ==> report == ReportOf(Verifier(hash, decrypt, !Scoped(organizationId)), Selected(rows, organizationId))
    ensures batchSize == 0 ==> report == IntegrityReport(0, 0, 0, None, true)
    ensures batchSize >= 1 ==>
              exists b :: FirstUnsound(rows, organizationId, hash, decrypt, b) && Tells(report, rows, organizationId, decrypt, b)
    ensures batchSize >= 1 ==>
              (report.isIntact <==>
                 forall k | 0 <= k < |rows| && Concerns(organizationId, rows[k]) :: Sound(rows, organizationId, hash, decrypt, k))
  {
    ghost var b := SomeFirstUnsound(rows, organizationId, hash, decrypt, 0);
    ReportTells(rows, organizationId, hash, decrypt, b);
    report := ScanPages(Verifier(hash, decrypt, !Scoped(organizationId)), Selected(rows, organizationId), batchSize);
  }

  // ----- what the report says of the table -----

  /** The verification is about this record: it is the organization's, or no organization was named. */
  predicate Concerns(organizationId: Option<int>, r: Record) {
    organizationId.None? || organizationId == Some(0) || r.organizationId == organizationId
  }

  /** Nothing is wrong with record k: its hash is that of its fields unless they cannot be read, and globally its link is right. */
  predicate Sound(rows: seq<Record>, organizationId: Option<int>, h: string -> string, decrypt: Decryption, k: nat)
    requires GoodLog(rows) && k < |rows|
  {
    var r := rows[k];
    && (decrypt(r.ipAddress) == Some("[encrypted]") || r.recordHash == RecordHash(h, r.previousHash, EntryOf(r, decrypt), r.serverTimestamp))
    && (organizationId.None? || organizationId == Some(0) ==> r.previousHash == if k == 0 then None else Some(rows[k - 1].recordHash))
  }

  /** The records before position b that it is about, and those of them that cannot be read. */
  function ConcernedBefore(rows: seq<Record>, organizationId: Option<int>, b: nat): set<nat>
    requires b <= |rows|
  {
    set k | 0 <= k < b && Concerns(organizationId, rows[k])
  }

  function LostBefore(rows: seq<Record>, organizationId: Option<int>, decrypt: Decryption, b: nat): set<nat>
    requires b <= |rows|
  {
    set k | 0 <= k < b && Concerns(organizationId, rows[k]) && decrypt(rows[k].ipAddress) == Some("[encrypted]")
  }

  /** Position b holds the first unsound record of those it is about, or is the end of the table. */
  predicate FirstUnsound(rows: seq<Record>, organizationId: Option<int>, h: string -> string, decrypt: Decryption, b: nat)
    requires GoodLog(rows)
  {
    && b <= |rows|
    && (forall k | 0 <= k < b && Concerns(organizationId, rows[k]) :: Sound(rows, organizationId, h, decrypt, k))
    && (b < |rows| ==> Concerns(organizationId, rows[b]) && !Sound(rows, organizationId, h, decrypt, b))
  }

  /** The report names the first unsound record, counts exactly those before it, and is intact when there is none. */
  predicate Tells(report: IntegrityReport, rows: seq<Record>, organizationId: Option<int>, decrypt: Decryption, b: nat)
    requires b <= |rows|
  {
    && report.isIntact == (b == |rows|)
    && report.brokenAt == (if b == |rows| then None else Some(rows[b].id))
    && report.verifiedRecords + report.unverifiableRecords == |ConcernedBefore(rows, organizationId, b)|
    && report.unverifiableRecords == |LostBefore(rows, organizationId, decrypt, b)|
    && report.totalRecords == |ConcernedBefore(rows, organizationId, b)| + if b == |rows| then 0 else 1
  }

  lemma {:induction false} SelectedJoins(a: seq<Record>, b: seq<Record>, organizationId: Option<int>)
    ensures Selected(a + b, organizationId) == Selected(a, organizationId) + Selected(b, organizationId)
  {
    if a == [] {
      assert a + b == b;
    } else {
      assert (a + b)[0] == a[0] && (a + b)[1..] == a[1..] + b;
      SelectedJoins(a[1..], b, organizationId);
    }
  }

  lemma SelectedOne(r: Record, organizationId: Option<int>)
    ensures Selected([r], organizationId) == if Concerns(organizationId, r) then [r] else []
  {
    assert [r][1..] == [] && Selected([], organizationId) == [];
  }

  lemma {:induction false} CountInLonger(v: Verifier, a: seq<Record>, b: seq<Record>, n: nat)
    requires n <= |a|
    ensures CountUnverifiable(v, a + b, n) == CountUnverifiable(v, a, n)
  {
    if n > 0 { CountInLonger(v, a, b, n - 1); }
  }

  lemma SelectedOneMore(v: Verifier, rows: seq<Record>, organizationId: Option<int>, b: nat)
    requires 0 < b <= |rows|
    ensures var log, front := Selected(rows[..b], organizationId), Selected(rows[..b - 1], organizationId);
            && |log| == |front| + (if Concerns(organizationId, rows[b - 1]) then 1 else 0)
            && CountUnverifiable(v, log, |log|)
            == CountUnverifiable(v, front, |front|) + if Concerns(organizationId, rows[b - 1]) && Unverifiable(v, rows[b - 1]) then 1 else 0
  {
    var r, front := rows[b - 1], Selected(rows[..b - 1], organizationId);
    assert rows[..b] == rows[..b - 1] + [r];
    SelectedJoins(rows[..b - 1], [r], organizationId);
    SelectedOne(r, organizationId);
    if Concerns(organizationId, r) {
      CountInLonger(v, front, [r], |front|);
    } else {
      assert front + [] == front;
    }
  }

  lemma ConcernedOneMore(rows: seq<Record>, organizationId: Option<int>, b: nat)
    requires 0 < b <= |rows|
    ensures |ConcernedBefore(rows, organizationId, b)| == |ConcernedBefore(rows, organizationId, b - 1)| + if Concerns(organizationId, rows[b - 1]) then 1 else 0
  {
    var s, t := ConcernedBefore(rows, organizationId, b), ConcernedBefore(rows, organizationId, b - 1);
    assert s == if Concerns(organizationId, rows[b - 1]) then t + {b - 1} else t;
  }

  lemma CountOfFront(v: Verifier, front: seq<Record>, log: seq<Record>)
    requires |front| <= |log| && log[..|front|] == front
    ensures CountUnverifiable(v, log, |front|) == CountUnverifiable(v, front, |front|)
  {
    assert log == front + log[|front|..];
    CountInLonger(v, front, log[|front|..], |front|);
  }

  /** The rows selected from the first b, and how many of them cannot be read. */
  lemma {:induction false} SelectedCounts(v: Verifier, rows: seq<Record>, organizationId: Option<int>, b: nat)
    requires b <= |rows|
    ensures var log := Selected(rows[..b], organizationId);
            && |log| == |ConcernedBefore(rows, organizationId, b)|
            && CountUnverifiable(v, log, |log|) == |LostBefore(rows, organizationId, v.decrypt, b)|
  {
    if b == 0 {
      assert rows[..0] == [] && ConcernedBefore(rows, organizationId, 0) == {} && LostBefore(rows, organizationId, v.decrypt, 0) == {};
    } else {
      hide Selected, ConcernedBefore, LostBefore, CountUnverifiable, Concerns;
      SelectedCounts(v, rows, organizationId, b - 1);
      SelectedOneMore(v, rows, organizationId, b);
      ConcernedOneMore(rows, organizationId, b);
      LostOneMore(rows, organizationId, v.decrypt, b);
    }
  }

  lemma LostOneMore(rows: seq<Record>, organizationId: Option<int>, decrypt: Decryption, b: nat)
    requires 0 < b <= |rows|
    ensures |LostBefore(rows, organizationId, decrypt, b)| == |LostBefore(rows, organizationId, decrypt, b - 1)|
         + if Concerns(organizationId, rows[b - 1]) && decrypt(rows[b - 1].ipAddress) == Some("[encrypted]") then 1 else 0
  {
    var s, t := LostBefore(rows, organizationId, decrypt, b), LostBefore(rows, organizationId, decrypt, b - 1);
    assert s == if Concerns(organizationId, rows[b - 1]) && decrypt(rows[b - 1].ipAddress) == Some("[encrypted]") then t + {b - 1} else t;
  }

  /** Where the records of the selection stand in the table. */
  lemma {:induction false} SelectedFrom(rows: seq<Record>, organizationId: Option<int>, b: nat, n: nat) returns (k: nat)
    requires b <= |rows| && n < |Selected(rows[..b], organizationId)|
    ensures k < b && rows[k] == Selected(rows[..b], organizationId)[n] && Concerns(organizationId, rows[k])
    ensures !Scoped(organizationId) ==> k == n
  {
    var r, front := rows[b - 1], Selected(rows[..b - 1], organizationId);
    assert rows[..b] == rows[..b - 1] + [r];
    SelectedJoins(rows[..b - 1], [r], organizationId);
    SelectedOne(r, organizationId);
    if n < |front| {
      k := SelectedFrom(rows, organizationId, b - 1, n);
    } else {
      k := b - 1;
    }
  }

  lemma PassesIsSound(rows: seq<Record>, organizationId: Option<int>, h: string -> string, decrypt: Decryption, log: seq<Record>, n: nat, k: nat)
    requires GoodLog(rows) && GoodLog(log) && k < |rows| && n < |log| && log[n] == rows[k]
    requires !Scoped(organizationId) ==> log == rows && n == k
    ensures Passes(Verifier(h, decrypt, !Scoped(organizationId)), log, n) <==> Sound(rows, organizationId, h, decrypt, k)
  {
  }

  lemma FirstBadOfSelected(rows: seq<Record>, organizationId: Option<int>, h: string -> string, decrypt: Decryption, b: nat)
    requires GoodLog(rows) && FirstUnsound(rows, organizationId, h, decrypt, b)
    ensures var v, log := Verifier(h, decrypt, !Scoped(organizationId)), Selected(rows, organizationId);
            var n := |Selected(rows[..b], organizationId)|;
            FirstBad(v, log, 0) == n && n <= |log| && (b < |rows| ==> n < |log| && log[n] == rows[b]) && (b == |rows| ==> n == |log|)
            && log[..n] == Selected(rows[..b], organizationId)
  {
    hide Passes, Sound, CountUnverifiable;
    var v, log := Verifier(h, decrypt, !Scoped(organizationId)), Selected(rows, organizationId);
    var front := Selected(rows[..b], organizationId);
    var n := |front|;
    assert rows == rows[..b] + rows[b..];
    SelectedJoins(rows[..b], rows[b..], organizationId);
    forall i | 0 <= i < n
      ensures Passes(v, log, i)
    {
      var k := SelectedFrom(rows, organizationId, b, i);
      PassesIsSound(rows, organizationId, h, decrypt, log, i, k);
    }
    if b < |rows| {
      assert rows[b..] == [rows[b]] + rows[b + 1..];
      SelectedJoins([rows[b]], rows[b + 1..], organizationId);
      SelectedOne(rows[b], organizationId);
      assert log[n] == rows[b];
      assert !Scoped(organizationId) ==> n == b;
      PassesIsSound(rows, organizationId, h, decrypt, log, n, b);
    } else {
      assert rows[..b] == rows;
    }
    FirstBadIs(v, log, n);
  }

  lemma TellsAtFirstBad(v: Verifier, log: seq<Record>, rows: seq<Record>, organizationId: Option<int>, n: nat, b: nat)
    requires GoodLog(log) && b <= |rows| && n <= |log| && FirstBad(v, log, 0) == n
    requires n == |ConcernedBefore(rows, organizationId, b)| && CountUnverifiable(v, log, n) == |LostBefore(rows, organizationId, v.decrypt, b)|
    requires if b < |rows| then n < |log| && log[n] == rows[b] else n == |log|
    ensures Tells(ReportOf(v, log), rows, organizationId, v.decrypt, b)
  {
    hide GoodLog, ConcernedBefore, LostBefore, FirstBad, CountUnverifiable, Passes;
  }

  lemma FirstUnsoundInside(rows: seq<Record>, organizationId: Option<int>, h: string -> string, decrypt: Decryption, b: nat)
    requires GoodLog(rows) && FirstUnsound(rows, organizationId, h, decrypt, b)
    ensures b <= |rows|
  {
  }

  /** Whatever is named, the report of the pass tells of the table what it should. */
  lemma ReportTells(rows: seq<Record>, organizationId: Option<int>, h: string -> string, decrypt: Decryption, b: nat)
    requires GoodLog(rows) && FirstUnsound(rows, organizationId, h, decrypt, b)
    ensures Tells(ReportOf(Verifier(h, decrypt, !Scoped(organizationId)), Selected(rows, organizationId)), rows, organizationId, decrypt, b)
  {
    FirstUnsoundInside(rows, organizationId, h, decrypt, b);
    hide Selected, FirstUnsound, ConcernedBefore, LostBefore, FirstBad, CountUnverifiable, GoodLog, Tells, ReportOf, Passes;
    var v, log := Verifier(h, decrypt, !Scoped(organizationId)), Selected(rows, organizationId);
    var front := Selected(rows[..b], organizationId);
    FirstBadOfSelected(rows, organizationId, h, decrypt, b);
    SelectedCounts(v, rows, organizationId, b);
    CountOfFront(v, front, log);
    TellsAtFirstBad(v, log, rows, organizationId, |front|, b);
  }

  lemma {:induction false} SomeFirstUnsound(rows: seq<Record>, organizationId: Option<int>, h: string -> string, decrypt: Decryption, b: nat) returns (c: nat)
    requires GoodLog(rows) && b <= |rows|
    requires forall k | 0 <= k < b && Concerns(organizationId, rows[k]) :: Sound(rows, organizationId, h, decrypt, k)
    ensures FirstUnsound(rows, organizationId, h, decrypt, c)
    decreases |rows| - b
  {
    hide Sound, Concerns;
    if b < |rows| && (Concerns(organizationId, rows[b]) ==> Sound(rows, organizationId, h, decrypt, b)) {
      c := SomeFirstUnsound(rows, organizationId, h, decrypt, b + 1);
    } else {
      c := b;
    }
  }

  lemma BrokenReport(v: Verifier, log: seq<Record>, n: nat, unverifiable: nat, verified: nat)
    requires GoodLog(log) && n < |log| && Scanned(v, log, n, unverifiable, verified) && !Passes(v, log, n)
    ensures ReportOf(v, log) == IntegrityReport(n + 1, verified, unverifiable, Some(log[n].id), false)
  {
    FirstBadIs(v, log, n);
  }

  lemma IntactReport(v: Verifier, log: seq<Record>, unverifiable: nat, verified: nat)
    requires GoodLog(log) && Scanned(v, log, |log|, unverifiable, verified)
    ensures ReportOf(v, log) == IntegrityReport(|log|, verified, unverifiable, None, true)
  {
    FirstBadIs(v, log, |log|);
  }

  /** The first bad record is the one all before which pass. */
  lemma FirstBadIs(v: Verifier, log: seq<Record>, b: nat)
    requires GoodLog(log) && b <= |log|
    requires forall i {:trigger Passes(v, log, i)} | 0 <= i < b :: Passes(v, log, i)
    requires b < |log| ==> !Passes(v, log, b)
    ensures FirstBad(v, log, 0) == b
  {
    FirstBadFrom(v, log, 0, b);
  }

  lemma {:induction false} FirstBadFrom(v: Verifier, log: seq<Record>, k: nat, b: nat)
    requires GoodLog(log) && k <= b <= |log|
    requires forall i {:trigger Passes(v, log, i)} | 0 <= i < b :: Passes(v, log, i)
    requires b < |log| ==> !Passes(v, log, b)
    ensures FirstBad(v, log, k) == b
    decreases b - k
  {
    if k < b {
      assert Passes(v, log, k);
      FirstBadFrom(v, log, k + 1, b);
    }
  }

  /**
   The report means what it says: the record named is the first with a wrong link or a wrong
   hash, exactly the records before it are counted, and intact means there is none.
   */
  lemma ReportMeans(v: Verifier, log: seq<Record>)
    requires GoodLog(log)
    ensures var r := ReportOf(v, log);
            var before := r.verifiedRecords + r.unverifiableRecords;
            && before <= |log|
            && (forall i {:trigger Passes(v, log, i)} | 0 <= i < before :: Passes(v, log, i))
            && (r.isIntact <==> before == |log|)
            && (r.isIntact <==> r.brokenAt.None?)
            && r.unverifiableRecords == |set i | 0 <= i < before && Unverifiable(v, log[i])|
            && (before < |log| ==> !Passes(v, log, before) && r.brokenAt == Some(log[before].id) && r.totalRecords == before + 1)
  {
    CountIsCount(v, log, FirstBad(v, log, 0));
  }

  /** The report of a log of which it is known which records pass, and which are unverifiable. */
  lemma ReportOfKnown(v: Verifier, log: seq<Record>, passes: seq<bool>, lost: seq<bool>)
    requires GoodLog(log) && |passes| == |lost| == |log|
    requires forall k {:trigger passes[k]} | 0 <= k < |log| :: Passes(v, log, k) <==> passes[k]
    requires forall k {:trigger lost[k]} | 0 <= k < |log| :: Unverifiable(v, log[k]) <==> lost[k]
    ensures ReportOf(v, log).isIntact <==> forall k | 0 <= k < |passes| :: passes[k]
    ensures ReportOf(v, log).isIntact ==> ReportOf(v, log).unverifiableRecords == |set k | 0 <= k < |lost| && lost[k]|
  {
    var b := FirstBad(v, log, 0);
    if b < |log| {
      assert !passes[b];
    } else {
      CountIsCount(v, log, |log|);
      assert (set k | 0 <= k < |lost| && lost[k]) == set k | 0 <= k < |log| && Unverifiable(v, log[k]);
    }
  }

  lemma {:induction false} CountIsCount(v: Verifier, log: seq<Record>, n: nat)
    requires n <= |log|
    ensures CountUnverifiable(v, log, n) == |set i | 0 <= i < n && Unverifiable(v, log[i])|
  {
    hide Unverifiable;
    var s := set i | 0 <= i < n && Unverifiable(v, log[i]);
    if n == 0 {
      assert s == {};
    } else {
      CountIsCount(v, log, n - 1);
      var t := set i | 0 <= i < n - 1 && Unverifiable(v, log[i]);
      assert s == if Unverifiable(v, log[n - 1]) then t + {n - 1} else t;
      OneMoreMember(t, n - 1);
    }
  }

  lemma OneMoreMember(s: set<int>, x: int)
    requires x !in s
    ensures |s + {x}| == |s| + 1
  {
  }

  /** A chain that verifies as a whole verifies for every organization. */
  lemma GloballyIntactIsIntactForEachOrganization(h: string -> string, decrypt: Decryption, rows: seq<Record>, organizationId: Option<int>)
    requires GoodLog(rows) && Scoped(organizationId)
    requires ReportOf(Verifier(h, decrypt, true), rows).isIntact
    ensures ReportOf(Verifier(h, decrypt, false), Selected(rows, organizationId)).isIntact
  {
    var g, v, log := Verifier(h, decrypt, true), Verifier(h, decrypt, false), Selected(rows, organizationId);
    forall k | 0 <= k < |log|
      ensures Passes(v, log, k)
    {
      assert log[k] in rows;
      var j :| 0 <= j < |rows| && rows[j] == log[k];
      assert Passes(g, rows, j);
    }
    FirstBadIs(v, log, |log|);
  }

  /** With nothing unverifiable, intact is what tamper evidence asks for. */
  lemma IntactMeansFullyVerified(v: Verifier, log: seq<Record>)
    requires GoodLog(log) && v.global && ReportOf(v, log).isIntact && ReportOf(v, log).unverifiableRecords == 0
    ensures FullyVerified(v.hash, log, v.decrypt)
  {
    forall k | 0 <= k < |log|
      ensures Linked(v.hash, log, k, v.decrypt)
    {
      assert Passes(v, log, k);
      NoneUnverifiable(v, log, |log|, k);
    }
  }

  lemma {:induction false} NoneUnverifiable(v: Verifier, log: seq<Record>, n: nat, k: nat)
    requires k < n <= |log| && CountUnverifiable(v, log, n) == 0
    ensures !Unverifiable(v, log[k])
  {
    if k < n - 1 { NoneUnverifiable(v, log, n - 1, k); }
  }

  /** Two chains that verify as a whole, all of them, and end in the same hash, agree in every hashed field of every record. */
  lemma IntactLogsWithOneEndAgree(h: string -> string, a: seq<Record>, b: seq<Record>, decryptA: Decryption, decryptB: Decryption)
    requires IdealHash(h) && GoodLog(a) && GoodLog(b) && PipeFreeLog(a, decryptA)
    requires var r := ReportOf(Verifier(h, decryptA, true), a); r.isIntact && r.unverifiableRecords == 0
    requires var r := ReportOf(Verifier(h, decryptB, true), b); r.isIntact && r.unverifiableRecords == 0
    requires Previous(a, |a|) == Previous(b, |b|)
    ensures |a| == |b| && forall k | 0 <= k < |a| :: Agree(a[k], b[k], decryptA, decryptB)
  {
    IntactMeansFullyVerified(Verifier(h, decryptA, true), a);
    IntactMeansFullyVerified(Verifier(h, decryptB, true), b);
    TamperEvidence(h, a, b, decryptA, decryptB);
  }
}

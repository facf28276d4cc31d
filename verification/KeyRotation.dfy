/**
 Verifying a log that was written while encryption keys were rotated: what the report of
 server/auditLog.ts says of a log nobody tampered with.
 */
module KeyRotation {
  import opened Wrappers
  import opened HashChain
  import opened AuditAppend
  import opened AuditVerify
  import opened PiiEncryption
  import Text
  import J = CanonicalJson
  import JsonColumn

  /** The services as the code has them: the hash of the payload, and encryptPii. */
  function Real(h: string -> string, cipher: Cipher, column: J.Json -> J.Json): Services {
    Services(
      (p: Option<string>, e: AuditEntry, t: int) => if GoodMetadata(e.metadata) then RecordHash(h, p, e, t) else "",
      (key: Option<string>, iv: string, x: Option<string>) => EncryptPii(cipher, key, iv, x),
      column)
  }

  function Decryptor(cipher: Cipher, primary: Option<string>, previous: Option<string>): Decryption {
    (s: Option<string>) => DecryptPii(cipher, primary, previous, s)
  }

  /** What is written to the JSON column comes back, in whatever key order, without undefined members. */
  ghost predicate FaithfulColumn(column: J.Json -> J.Json) {
    forall v {:trigger column(v)} | J.WellFormed(v) :: ComesBack(v, column(v))
  }

  predicate ComesBack(v: J.Json, back: J.Json)
    requires J.WellFormed(v)
  {
    J.WellFormed(back) && J.WellFormed(JsonColumn.Column(v)) && J.Visible(back) == J.Visible(JsonColumn.Column(v))
  }

  /** An entry whose metadata is a JavaScript value and whose IP address cannot be taken for a ciphertext. */
  predicate Honest(e: AuditEntry) { GoodMetadata(e.metadata) && PlainText(e.ipAddress) }

  /** The IP address was sealed under a key that is neither the primary nor the previous one. */
  predicate Lost(e: AuditEntry, s: Stamp, primary: Option<string>, previous: Option<string>) {
    NonEmpty(e.ipAddress).Some? && !Known(s.key, primary, previous)
  }

  /** The metadata has no undefined member, so the column keeps all of it. */
  predicate Survives(e: AuditEntry) { e.metadata.Some? ==> JsonColumn.NoUndefinedMember(e.metadata.value) }

  // ----- one record -----

  lemma CancelPrefix(x: string, y: string, z: string)
    ensures x + y == x + z <==> y == z
  {
    assert (x + y)[|x|..] == y && (x + z)[|x|..] == z;
  }

  lemma OnlyMetadataDiffers(p: Option<string>, e: AuditEntry, f: AuditEntry, t: int)
    requires GoodMetadata(e.metadata) && GoodMetadata(f.metadata)
    requires f == e.(ipAddress := f.ipAddress, metadata := f.metadata) && e.ipAddress.GetOr("") == f.ipAddress.GetOr("")
    ensures Payload(p, e, t) == Payload(p, f, t) <==> MetadataText(e.metadata) == MetadataText(f.metadata)
  {
    var a, b := PayloadFields(p, e, t), PayloadFields(p, f, t);
    assert a[..7] == b[..7] && a == a[..7] + [a[7]] && b == b[..7] + [b[7]];
    Text.JoinAppend(a[..7], a[7], "|");
    Text.JoinAppend(b[..7], b[7], "|");
    CancelPrefix(Text.Join(a[..7], "|") + "|", a[7], b[7]);
  }

  lemma SameHashIff(h: string -> string, p: Option<string>, e: AuditEntry, f: AuditEntry, t: int)
    requires Injective(h) && GoodMetadata(e.metadata) && GoodMetadata(f.metadata)
    requires f == e.(ipAddress := f.ipAddress, metadata := f.metadata) && e.ipAddress.GetOr("") == f.ipAddress.GetOr("")
    ensures RecordHash(h, p, e, t) == RecordHash(h, p, f, t) <==> MetadataText(e.metadata) == MetadataText(f.metadata)
  {
    OnlyMetadataDiffers(p, e, f, t);
  }

  lemma TruthyComesBackTruthy(v: J.Json, back: J.Json)
    requires J.WellFormed(v) && !Falsy(v) && ComesBack(v, back)
    ensures !Falsy(back)
  {
    J.FirstCharacter(back);
  }

  lemma TruthyReadsBackIff(v: J.Json, back: J.Json)
    requires J.WellFormed(v) && !Falsy(v) && ComesBack(v, back)
    ensures MetadataText(Some(back)) == MetadataText(Some(v)) <==> JsonColumn.NoUndefinedMember(v)
  {
    TruthyComesBackTruthy(v, back);
    JsonColumn.ColumnRoundTripIff(v, back);
  }

  lemma FalsyReadsBack(v: J.Json)
    requires J.WellFormed(v) && Falsy(v)
    ensures MetadataText(None) == MetadataText(Some(v)) && JsonColumn.NoUndefinedMember(v)
  {
  }

  /** Metadata reads back as it was hashed exactly when no member of it was undefined. */
  lemma MetadataReadsBackIff(c: Services, e: AuditEntry)
    requires FaithfulColumn(c.column) && GoodMetadata(e.metadata)
    ensures GoodMetadata(StoredMetadata(c, e.metadata))
    ensures MetadataText(StoredMetadata(c, e.metadata)) == MetadataText(e.metadata) <==> Survives(e)
  {
    if e.metadata.Some? {
      var v := e.metadata.value;
      if Falsy(v) {
        FalsyReadsBack(v);
      } else {
        assert ComesBack(v, c.column(v));
        TruthyReadsBackIff(v, c.column(v));
      }
    }
  }

  lemma WhoIsUnverifiable(h: string -> string, cipher: Cipher, column: J.Json -> J.Json, p: Option<string>, e: AuditEntry, s: Stamp,
                          primary: Option<string>, previous: Option<string>)
    requires Ideal(cipher) && Honest(e)
    ensures var v := Verifier(h, Decryptor(cipher, primary, previous), true);
            var r := Written(Real(h, cipher, column), p, e, s);
            && (Unverifiable(v, r) <==> Lost(e, s, primary, previous))
            && (!Lost(e, s, primary, previous) ==> v.decrypt(r.ipAddress) == NonEmpty(e.ipAddress))
  {
    DecryptAfterEncrypt(cipher, s.key, s.iv, e.ipAddress, primary, previous);
  }

  /** A record passes if its IP address is lost, or if its metadata survives; otherwise it does not. */
  lemma WrittenPassesIff(h: string -> string, cipher: Cipher, column: J.Json -> J.Json, p: Option<string>, e: AuditEntry, s: Stamp,
                         primary: Option<string>, previous: Option<string>)
    requires Injective(h) && Ideal(cipher) && FaithfulColumn(column) && Honest(e)
    ensures var r := Written(Real(h, cipher, column), p, e, s);
            && GoodRecord(r)
            && (RecordPasses(Verifier(h, Decryptor(cipher, primary, previous), true), p, r)
                <==> Lost(e, s, primary, previous) || Survives(e))
  {
    var decrypt := Decryptor(cipher, primary, previous);
    var r := Written(Real(h, cipher, column), p, e, s);
    WhoIsUnverifiable(h, cipher, column, p, e, s, primary, previous);
    MetadataReadsBackIff(Real(h, cipher, column), e);
    if !Lost(e, s, primary, previous) {
      SameHashIff(h, p, e, EntryOf(r, decrypt), s.time);
    }
  }

  // ----- the whole log -----

  predicate AllHonest(es: seq<AuditEntry>) { forall i | 0 <= i < |es| :: Honest(es[i]) }

  /** Record k passes, and is unverifiable, exactly when it should be. */
  predicate Judged(v: Verifier, log: seq<Record>, k: nat, e: AuditEntry, s: Stamp, primary: Option<string>, previous: Option<string>)
    requires GoodLog(log) && k < |log|
  {
    && (Passes(v, log, k) <==> Lost(e, s, primary, previous) || Survives(e))
    && (Unverifiable(v, log[k]) <==> Lost(e, s, primary, previous))
  }

  lemma ReportOfJudged(v: Verifier, log: seq<Record>, es: seq<AuditEntry>, ss: seq<Stamp>, primary: Option<string>, previous: Option<string>)
    requires GoodLog(log) && |log| == |es| == |ss|
    requires forall k {:trigger Judged(v, log, k, es[k], ss[k], primary, previous)} | 0 <= k < |log| ::
               Judged(v, log, k, es[k], ss[k], primary, previous)
    ensures ReportOf(v, log).isIntact <==> forall k | 0 <= k < |es| :: Lost(es[k], ss[k], primary, previous) || Survives(es[k])
    ensures ReportOf(v, log).isIntact ==>
              ReportOf(v, log).unverifiableRecords == |set k | 0 <= k < |es| && Lost(es[k], ss[k], primary, previous)|
  {
    hide Lost, Survives, Passes, Unverifiable, ReportOf;
    var lost := seq(|es|, k requires 0 <= k < |es| => Lost(es[k], ss[k], primary, previous));
    var passes := seq(|es|, k requires 0 <= k < |es| => Lost(es[k], ss[k], primary, previous) || Survives(es[k]));
    forall k | 0 <= k < |log|
      ensures (Passes(v, log, k) <==> passes[k]) && (Unverifiable(v, log[k]) <==> lost[k])
    {
      assert Judged(v, log, k, es[k], ss[k], primary, previous);
    }
    ReportOfKnown(v, log, passes, lost);
    assert (set k | 0 <= k < |lost| && lost[k]) == set k | 0 <= k < |es| && Lost(es[k], ss[k], primary, previous);
    if k :| 0 <= k < |es| && !passes[k] {
      assert !(Lost(es[k], ss[k], primary, previous) || Survives(es[k]));
    } else {
      forall k | 0 <= k < |es| ensures Lost(es[k], ss[k], primary, previous) || Survives(es[k]) { assert passes[k]; }
    }
  }

  lemma HonestLogPasses(h: string -> string, cipher: Cipher, column: J.Json -> J.Json, es: seq<AuditEntry>, ss: seq<Stamp>,
                        primary: Option<string>, previous: Option<string>, log: seq<Record>)
    requires Injective(h) && Ideal(cipher) && FaithfulColumn(column) && AllHonest(es)
    requires Explains(Real(h, cipher, column), es, ss, log)
    ensures GoodLog(log)
    ensures var v := Verifier(h, Decryptor(cipher, primary, previous), true);
            forall k {:trigger Judged(v, log, k, es[k], ss[k], primary, previous)} | 0 <= k < |log| ::
              Judged(v, log, k, es[k], ss[k], primary, previous)
  {
    var c, v := Real(h, cipher, column), Verifier(h, Decryptor(cipher, primary, previous), true);
    forall k | 0 <= k < |log|
      ensures GoodRecord(log[k])
      ensures RecordPasses(v, Previous(log, k), log[k]) <==> Lost(es[k], ss[k], primary, previous) || Survives(es[k])
      ensures Unverifiable(v, log[k]) <==> Lost(es[k], ss[k], primary, previous)
    {
      assert WrittenAt(c, log, k, es[k], ss[k]);
      WrittenPassesIff(h, cipher, column, Previous(log, k), es[k], ss[k], primary, previous);
      WhoIsUnverifiable(h, cipher, column, Previous(log, k), es[k], ss[k], primary, previous);
    }
  }

  /**
   For a log written by any interleaving of appends, under whatever keys were in force at each of
   them, and checked with any two keys configured: the report says intact if and only if every
   record whose IP address can still be read had metadata without undefined members, and then the
   unverifiable records are those whose key is gone.
   */
  lemma IntactAcrossRotationsIff(h: string -> string, cipher: Cipher, column: J.Json -> J.Json, es: seq<AuditEntry>, ss: seq<Stamp>,
                                 primary: Option<string>, previous: Option<string>)
    requires Injective(h) && Ideal(cipher) && FaithfulColumn(column) && AllHonest(es) && |es| == |ss|
    ensures var log := AppendAll(Real(h, cipher, column), [], es, ss);
            && GoodLog(log)
            && var report := ReportOf(Verifier(h, Decryptor(cipher, primary, previous), true), log);
            && (report.isIntact <==> forall k | 0 <= k < |es| :: Lost(es[k], ss[k], primary, previous) || Survives(es[k]))
            && (report.isIntact ==> report.unverifiableRecords == |set k | 0 <= k < |es| && Lost(es[k], ss[k], primary, previous)|)
  {
    var log, v := AppendAll(Real(h, cipher, column), [], es, ss), Verifier(h, Decryptor(cipher, primary, previous), true);
    FoldIsExplained(Real(h, cipher, column), es, ss);
    HonestLogPasses(h, cipher, column, es, ss, primary, previous, log);
    ReportOfJudged(v, log, es, ss, primary, previous);
  }

  /** The same of the committed log of any interleaving of transactions. */
  lemma CommittedLogIntactIff(h: string -> string, cipher: Cipher, column: J.Json -> J.Json, steps: seq<Step>,
                              primary: Option<string>, previous: Option<string>)
    requires Injective(h) && Ideal(cipher) && FaithfulColumn(column)
    requires AllHonest(Entries(Run(Real(h, cipher, column), EMPTY, steps)))
    ensures var d := Run(Real(h, cipher, column), EMPTY, steps);
            && GoodLog(d.committed) && |Entries(d)| == |Stamps(d)|
            && (ReportOf(Verifier(h, Decryptor(cipher, primary, previous), true), d.committed).isIntact
                <==> forall k | 0 <= k < |Entries(d)| :: Lost(Entries(d)[k], Stamps(d)[k], primary, previous) || Survives(Entries(d)[k]))
            && (ReportOf(Verifier(h, Decryptor(cipher, primary, previous), true), d.committed).isIntact ==>
                  ReportOf(Verifier(h, Decryptor(cipher, primary, previous), true), d.committed).unverifiableRecords
                  == |set k | 0 <= k < |Entries(d)| && Lost(Entries(d)[k], Stamps(d)[k], primary, previous)|)
  {
    var d := Run(Real(h, cipher, column), EMPTY, steps);
    InterleavedIsSerial(Real(h, cipher, column), steps);
    IntactAcrossRotationsIff(h, cipher, column, Entries(d), Stamps(d), primary, previous);
  }

  /** The record of a document that was voided without a reason. */
  const VOID_RECORD: AuditEntry :=
    AuditEntry("document.voided", Some("document"), Some(1), Some(1), Some(1), None, Some(J.Obj([J.Member("reason", J.Undefined)])))

  lemma UndefinedDoesNotSurvive(m: J.Member)
    requires m.value.Undefined?
    ensures !JsonColumn.NoUndefinedMember(J.Obj([m]))
  {
    var ms := [m];
    assert ms[0].value.Undefined?;
  }

  /** For instance, the log that holds nothing but this record fails verification, with any keys. */
  lemma VoidingWithoutReasonBreaksTheReport(h: string -> string, cipher: Cipher, column: J.Json -> J.Json, s: Stamp,
                                            primary: Option<string>, previous: Option<string>)
    requires Injective(h) && Ideal(cipher) && FaithfulColumn(column)
    ensures AllHonest([VOID_RECORD])
    ensures var log := AppendAll(Real(h, cipher, column), [], [VOID_RECORD], [s]);
            GoodLog(log) && !ReportOf(Verifier(h, Decryptor(cipher, primary, previous), true), log).isIntact
  {
    UndefinedDoesNotSurvive(J.Member("reason", J.Undefined));
    assert Honest(VOID_RECORD) && !Survives(VOID_RECORD) && !Lost(VOID_RECORD, s, primary, previous);
    IntactAcrossRotationsIff(h, cipher, column, [VOID_RECORD], [s], primary, previous);
    assert [VOID_RECORD][0] == VOID_RECORD && [s][0] == s;
  }
}

/**
 The hash chain of server/auditLog.ts: what a record's hash covers, and why a chain that
 verifies cannot be changed without changing its last hash.
 */
module HashChain {
  import opened Wrappers
  import opened Text
  import opened CanonicalJson
  import opened Decimal
  import JsonLexing

  datatype AuditEntry = AuditEntry(
    eventType: string,
    entityType: Option<string>,
    entityId: Option<int>,
    organizationId: Option<int>,
    actorUserId: Option<int>,
    ipAddress: Option<string>,
    metadata: Option<Json>)

  /** A row of system_audit_logs; ipAddress is what is stored, encrypted or not. */
  datatype Record = Record(
    id: int,
    eventType: string,
    entityType: Option<string>,
    entityId: Option<int>,
    organizationId: Option<int>,
    actorUserId: Option<int>,
    ipAddress: Option<string>,
    metadata: Option<Json>,
    previousHash: Option<string>,
    recordHash: string,
    serverTimestamp: int)

  predicate Falsy(v: Json) {
    v == Undefined || v == Null || v == Bool(false) || v == Str("") || v == Num("0")
  }

  predicate GoodMetadata(m: Option<Json>) { m.Some? ==> WellFormed(m.value) }

  function MetadataText(m: Option<Json>): string
    requires GoodMetadata(m)
  {
    if m.None? || Falsy(m.value) then "" else Stringify(m.value)
  }

  /** What the hash sees of the metadata. */
  function ShownMetadata(m: Option<Json>): Option<Doc>
    requires GoodMetadata(m)
  {
    if m.None? || Falsy(m.value) then None else Some(Visible(m.value))
  }

  function NumberField(n: Option<int>): string { if n.Some? then IntText(n.value) else "" }

  function PayloadFields(previousHash: Option<string>, e: AuditEntry, serverTimestamp: int): (r: seq<string>)
    requires GoodMetadata(e.metadata)
    ensures |r| == 8
  {
    [previousHash.GetOr("GENESIS"),
     e.eventType,
     e.entityType.GetOr(""),
     NumberField(e.entityId),
     NumberField(e.actorUserId),
     e.ipAddress.GetOr(""),
     IntText(serverTimestamp),
     MetadataText(e.metadata)]
  }

  function Payload(previousHash: Option<string>, e: AuditEntry, serverTimestamp: int): string
    requires GoodMetadata(e.metadata)
  {
    Join(PayloadFields(previousHash, e, serverTimestamp), "|")
  }

  /** The payload written out: the link or a word for none, types, numbers, address, time and metadata, with pipes between. */
  lemma PayloadWrittenOut(previousHash: Option<string>, e: AuditEntry, serverTimestamp: int)
    requires GoodMetadata(e.metadata)
    ensures Payload(previousHash, e, serverTimestamp)
         == (if previousHash.Some? then previousHash.value else "GENESIS") + "|"
          + (e.eventType + "|"
          + ((if e.entityType.Some? then e.entityType.value else "") + "|"
          + ((if e.entityId.Some? then IntText(e.entityId.value) else "") + "|"
          + ((if e.actorUserId.Some? then IntText(e.actorUserId.value) else "") + "|"
          + ((if e.ipAddress.Some? then e.ipAddress.value else "") + "|"
          + (IntText(serverTimestamp) + "|"
          + (if e.metadata.None? || e.metadata.value in {Undefined, Null, Bool(false), Str(""), Num("0")} then "" else Stringify(e.metadata.value))))))))
  {
    var f := PayloadFields(previousHash, e, serverTimestamp);
    JoinEight(f[0], f[1], f[2], f[3], f[4], f[5], f[6], f[7], "|");
  }

  lemma JoinEight(a: string, b: string, c: string, d: string, e: string, f: string, g: string, h: string, sep: string)
    ensures Join([a, b, c, d, e, f, g, h], sep)
         == a + sep + (b + sep + (c + sep + (d + sep + (e + sep + (f + sep + (g + sep + h))))))
  {
    assert [a, b, c, d, e, f, g, h][1..] == [b, c, d, e, f, g, h] && [b, c, d, e, f, g, h][1..] == [c, d, e, f, g, h];
    assert [c, d, e, f, g, h][1..] == [d, e, f, g, h] && [d, e, f, g, h][1..] == [e, f, g, h];
    assert [e, f, g, h][1..] == [f, g, h] && [f, g, h][1..] == [g, h] && [g, h][1..] == [h];
    assert Join([g, h], sep) == g + sep + h;
    assert Join([e, f, g, h], sep) == e + sep + (f + sep + (g + sep + h)) by { assert Join([f, g, h], sep) == f + sep + (g + sep + h); }
    assert Join([c, d, e, f, g, h], sep) == c + sep + Join([d, e, f, g, h], sep);
    assert Join([d, e, f, g, h], sep) == d + sep + Join([e, f, g, h], sep);
    assert Join([b, c, d, e, f, g, h], sep) == b + sep + Join([c, d, e, f, g, h], sep);
  }

  /** computeRecordHash, for a hash function h standing in for SHA-256 in hexadecimal. */
  function RecordHash(h: string -> string, previousHash: Option<string>, e: AuditEntry, serverTimestamp: int): string
    requires GoodMetadata(e.metadata)
  {
    h(Payload(previousHash, e, serverTimestamp))
  }

  ghost predicate Injective(h: string -> string) { forall x, y :: h(x) == h(y) ==> x == y }

  /** Injective, and never the word GENESIS nor a text with a pipe. */
  ghost predicate IdealHash(h: string -> string) {
    && Injective(h)
    && forall x :: h(x) != "GENESIS" && NoPipe(h(x))
  }

  predicate NoPipe(s: string) { forall i | 0 <= i < |s| :: s[i] != '|' }

  predicate PipeFree(e: AuditEntry) {
    NoPipe(e.eventType) && NoPipe(e.entityType.GetOr("")) && NoPipe(e.ipAddress.GetOr(""))
  }

  // ----- the payload determines its fields -----

  lemma FirstField(a: string, x: string, b: string, y: string)
    requires NoPipe(a) && NoPipe(b) && a + "|" + x == b + "|" + y
    ensures a == b && x == y
  {
    var s := a + "|" + x;
    assert s[|a|] == '|' && s[|b|] == '|';
    assert forall i | 0 <= i < |a| :: s[i] == a[i];
    assert forall i | 0 <= i < |b| :: s[i] == b[i];
    assert |a| == |b|;
    assert a == s[..|a|] && b == s[..|b|] && x == s[|a| + 1..] && y == s[|b| + 1..];
  }

  lemma {:induction false} JoinedFieldsUnique(a: seq<string>, b: seq<string>)
    requires |a| == |b| && a != []
    requires forall i | 0 <= i < |a| - 1 :: NoPipe(a[i]) && NoPipe(b[i])
    requires Join(a, "|") == Join(b, "|")
    ensures a == b
  {
    if |a| > 1 {
      FirstField(a[0], Join(a[1..], "|"), b[0], Join(b[1..], "|"));
      JoinedFieldsUnique(a[1..], b[1..]);
      assert a == [a[0]] + a[1..] && b == [b[0]] + b[1..];
    }
  }

  // ----- where the metadata begins -----

  function Pipes(s: string): nat {
    if s == "" then 0 else Pipes(s[1..]) + if s[0] == '|' then 1 else 0
  }

  lemma {:induction false} PipesBoth(a: string, b: string)
    ensures Pipes(a + b) == Pipes(a) + Pipes(b)
  {
    if a == "" {
      assert a + b == b;
    } else {
      assert (a + b)[0] == a[0] && (a + b)[1..] == a[1..] + b;
      PipesBoth(a[1..], b);
    }
  }

  lemma {:induction false} PipesZeroIff(s: string)
    ensures Pipes(s) == 0 <==> NoPipe(s)
  {
    if s != "" {
      PipesZeroIff(s[1..]);
      assert s == [s[0]] + s[1..];
    }
  }

  lemma PipeAtEnd(s: string)
    ensures Pipes(s + "|") == Pipes(s) + 1
  {
    assert "|"[1..] == "";
    PipesBoth(s, "|");
  }

  /** The fields with a pipe behind each. */
  function Head(fields: seq<string>): string {
    if fields == [] then "" else fields[0] + "|" + Head(fields[1..])
  }

  lemma {:induction false} JoinIsHead(fields: seq<string>, last: string)
    ensures Join(fields + [last], "|") == Head(fields) + last
  {
    if fields != [] {
      assert (fields + [last])[1..] == fields[1..] + [last];
      JoinIsHead(fields[1..], last);
      assert fields[0] + "|" + (Head(fields[1..]) + last) == (fields[0] + "|" + Head(fields[1..])) + last;
    }
  }

  lemma {:induction false} HeadPipes(fields: seq<string>)
    ensures Pipes(Head(fields)) >= |fields|
    ensures Pipes(Head(fields)) == |fields| <==> forall i | 0 <= i < |fields| :: NoPipe(fields[i])
  {
    if fields != [] {
      HeadPipes(fields[1..]);
      PipesZeroIff(fields[0]);
      PipeAtEnd(fields[0]);
      PipesBoth(fields[0] + "|", Head(fields[1..]));
      assert forall i | 1 <= i < |fields| :: fields[i] == fields[1..][i - 1];
    }
  }

  lemma {:induction false} HeadEndsInPipe(fields: seq<string>)
    requires fields != []
    ensures Head(fields) != "" && Head(fields)[|Head(fields)| - 1] == '|'
  {
    if |fields| > 1 { HeadEndsInPipe(fields[1..]); } else { assert Head(fields[1..]) == ""; }
  }

  lemma CutLater(a: string, m: string, b: string, n: string)
    requires a + m == b + n && |a| < |b| && b[|b| - 1] == '|'
    ensures exists x :: m == x + "|" + n
  {
    var s, z := a + m, b[|a|..];
    assert m == s[|a|..] && n == s[|b|..] && b == s[..|b|];
    assert m == z + n && z == z[..|z| - 1] + "|";
    assert m == z[..|z| - 1] + "|" + n;
  }

  lemma CutEarlier(a: string, m: string, b: string, n: string)
    requires a + m == b + n && |b| < |a| && a[|a| - 1] == '|'
    ensures Pipes(a) > Pipes(b)
  {
    var s, z := a + m, a[|b|..];
    assert a == s[..|a|] && b == s[..|b|];
    assert a == b + z && z == z[..|z| - 1] + "|";
    PipesBoth(b, z);
    PipeAtEnd(z[..|z| - 1]);
  }

  /** Either two texts are cut in the same place, or the longer first part ends the rest behind a pipe of the other. */
  lemma CutAtPipes(a: string, m: string, b: string, n: string)
    requires a + m == b + n && a != "" && b != "" && a[|a| - 1] == '|' && b[|b| - 1] == '|'
    ensures Pipes(a) <= Pipes(b) ==> (a == b && m == n) || exists x :: m == x + "|" + n
  {
    if |a| == |b| {
      SameCut(a, m, b, n);
    } else if |a| < |b| {
      CutLater(a, m, b, n);
    } else {
      CutEarlier(a, m, b, n);
    }
  }

  lemma SameCut(a: string, m: string, b: string, n: string)
    requires a + m == b + n && |a| == |b|
    ensures a == b && m == n
  {
    assert a == (a + m)[..|a|] && m == (a + m)[|a|..] && b == (b + n)[..|b|] && n == (b + n)[|b|..];
  }

  lemma MetadataReturns(m: Option<Json>)
    requires GoodMetadata(m)
    ensures JsonLexing.Returns(MetadataText(m))
  {
    if m.Some? && !Falsy(m.value) { JsonLexing.CanonicalReturns(m.value); }
  }

  /** No metadata text is what stands behind a pipe of another. */
  lemma NoMetadataBehindPipe(m: Option<Json>, n: Option<Json>, x: string)
    requires GoodMetadata(m) && GoodMetadata(n)
    ensures MetadataText(m) != x + "|" + MetadataText(n)
  {
    MetadataReturns(m);
    MetadataReturns(n);
    if MetadataText(m) == x + "|" + MetadataText(n) { JsonLexing.NoTextBehindPipe(x, MetadataText(n)); }
  }

  /** If one of two equal payloads has no pipe outside its metadata, the other has none either. */
  lemma SamePayloadSameFields(a: seq<string>, m: Option<Json>, b: seq<string>, n: Option<Json>)
    requires |a| == |b| && a != [] && GoodMetadata(m) && GoodMetadata(n)
    requires forall i | 0 <= i < |a| :: NoPipe(a[i])
    requires Join(a + [MetadataText(m)], "|") == Join(b + [MetadataText(n)], "|")
    ensures a + [MetadataText(m)] == b + [MetadataText(n)]
  {
    JoinIsHead(a, MetadataText(m));
    JoinIsHead(b, MetadataText(n));
    HeadPipes(a);
    HeadPipes(b);
    HeadEndsInPipe(a);
    HeadEndsInPipe(b);
    CutAtPipes(Head(a), MetadataText(m), Head(b), MetadataText(n));
    if x :| MetadataText(m) == x + "|" + MetadataText(n) { NoMetadataBehindPipe(m, n, x); }
    assert forall i | 0 <= i < |b| :: NoPipe(b[i]);
    JoinedFieldsUnique(a + [MetadataText(m)], b + [MetadataText(n)]);
  }

  lemma NumberFieldInjective(a: Option<int>, b: Option<int>)
    requires NumberField(a) == NumberField(b)
    ensures a == b
  {
    if a.Some? && b.Some? { IntTextInjective(a.value, b.value); }
  }

  lemma MetadataTextShows(m: Option<Json>, n: Option<Json>)
    requires GoodMetadata(m) && GoodMetadata(n)
    ensures MetadataText(m) == MetadataText(n) <==> ShownMetadata(m) == ShownMetadata(n)
  {
    if m.Some? { FirstCharacter(m.value); }
    if n.Some? { FirstCharacter(n.value); }
    if m.Some? && n.Some? { SameTextIffSameVisible(m.value, n.value); }
  }

  /** The hashed fields of two entries agree. */
  predicate SameHashedFields(e: AuditEntry, f: AuditEntry)
    requires GoodMetadata(e.metadata) && GoodMetadata(f.metadata)
  {
    && e.eventType == f.eventType
    && e.entityType.GetOr("") == f.entityType.GetOr("")
    && e.entityId == f.entityId
    && e.actorUserId == f.actorUserId
    && e.ipAddress.GetOr("") == f.ipAddress.GetOr("")
    && ShownMetadata(e.metadata) == ShownMetadata(f.metadata)
  }

  predicate HashLike(p: Option<string>) { p.Some? ==> p.value != "GENESIS" && NoPipe(p.value) }

  /**
   The payload of an entry with no pipe outside its metadata determines the link and all hashed
   fields: no other entry, pipes or not, has the same payload.
   */
  lemma PayloadDeterminesFields(p: Option<string>, e: AuditEntry, t: int, q: Option<string>, f: AuditEntry, u: int)
    requires GoodMetadata(e.metadata) && GoodMetadata(f.metadata) && PipeFree(e) && HashLike(p) && HashLike(q)
    ensures Payload(p, e, t) == Payload(q, f, u) <==> p == q && t == u && SameHashedFields(e, f)
  {
    var a, b := PayloadFields(p, e, t), PayloadFields(q, f, u);
    MetadataTextShows(e.metadata, f.metadata);
    if Payload(p, e, t) == Payload(q, f, u) {
      FieldsWithoutPipes(p, e, t);
      assert a == a[..7] + [a[7]] && b == b[..7] + [b[7]];
      SamePayloadSameFields(a[..7], e.metadata, b[..7], f.metadata);
      SameFieldsSameEntry(p, e, t, q, f, u);
    }
    if p == q && t == u && SameHashedFields(e, f) {
      assert a == b;
    }
  }

  lemma SameFieldsSameEntry(p: Option<string>, e: AuditEntry, t: int, q: Option<string>, f: AuditEntry, u: int)
    requires GoodMetadata(e.metadata) && GoodMetadata(f.metadata) && HashLike(p) && HashLike(q)
    requires PayloadFields(p, e, t) == PayloadFields(q, f, u)
    ensures p == q && t == u && SameHashedFields(e, f)
  {
    var a, b := PayloadFields(p, e, t), PayloadFields(q, f, u);
    assert a[0] == b[0] && a[1] == b[1] && a[2] == b[2] && a[3] == b[3] && a[4] == b[4] && a[5] == b[5] && a[6] == b[6] && a[7] == b[7];
    NumberFieldInjective(e.entityId, f.entityId);
    NumberFieldInjective(e.actorUserId, f.actorUserId);
    IntTextInjective(t, u);
    MetadataTextShows(e.metadata, f.metadata);
  }

  lemma FieldsWithoutPipes(p: Option<string>, e: AuditEntry, t: int)
    requires GoodMetadata(e.metadata) && PipeFree(e) && HashLike(p)
    ensures forall i | 0 <= i < 7 :: NoPipe(PayloadFields(p, e, t)[i])
  {
  }

  // ----- where pipes make a payload ambiguous -----

  /** No other link, entry and time have this payload. */
  ghost predicate Unambiguous(p: Option<string>, e: AuditEntry, t: int)
    requires GoodMetadata(e.metadata)
  {
    forall q, f: AuditEntry, u {:trigger PayloadFields(q, f, u)} | GoodMetadata(f.metadata) && HashLike(q) && Payload(p, e, t) == Payload(q, f, u) ::
      p == q && t == u && SameHashedFields(e, f)
  }

  lemma ThreeFields(a: string, b: string, c: string, rest: seq<string>)
    requires rest != []
    ensures Join([a, b, c] + rest, "|") == a + "|" + (b + "|" + c) + ("|" + Join(rest, "|"))
  {
    var s := [a, b, c] + rest;
    assert s[1..] == [b, c] + rest && ([b, c] + rest)[1..] == [c] + rest && ([c] + rest)[1..] == rest;
    assert Join([c] + rest, "|") == c + "|" + Join(rest, "|");
    assert Join([b, c] + rest, "|") == b + "|" + (c + "|" + Join(rest, "|"));
  }

  /** Event type and entity type can be told apart in the payload only by the pipe between them. */
  lemma TypesRunTogether(p: Option<string>, e: AuditEntry, f: AuditEntry, t: int)
    requires GoodMetadata(e.metadata) && f == e.(eventType := f.eventType, entityType := f.entityType)
    requires e.eventType + "|" + e.entityType.GetOr("") == f.eventType + "|" + f.entityType.GetOr("")
    ensures Payload(p, e, t) == Payload(p, f, t)
  {
    var a, b := PayloadFields(p, e, t), PayloadFields(p, f, t);
    assert a[3..] == b[3..];
    assert a == [a[0], a[1], a[2]] + a[3..] && b == [b[0], b[1], b[2]] + b[3..];
    ThreeFields(a[0], a[1], a[2], a[3..]);
    ThreeFields(b[0], b[1], b[2], b[3..]);
  }

  /** An entry of different types that has the same payload, when one of the types holds a pipe. */
  lemma PipeMakesTwin(e: AuditEntry) returns (f: AuditEntry)
    requires !(NoPipe(e.eventType) && NoPipe(e.entityType.GetOr("")))
    ensures f == e.(eventType := f.eventType, entityType := f.entityType) && f.eventType != e.eventType
    ensures e.eventType + "|" + e.entityType.GetOr("") == f.eventType + "|" + f.entityType.GetOr("")
  {
    var a, b := e.eventType, e.entityType.GetOr("");
    if i :| 0 <= i < |a| && a[i] == '|' {
      f := e.(eventType := a[..i], entityType := Some(a[i + 1..] + "|" + b));
      assert a == a[..i] + "|" + a[i + 1..];
    } else {
      var j :| 0 <= j < |b| && b[j] == '|';
      f := e.(eventType := a + "|" + b[..j], entityType := Some(b[j + 1..]));
      assert b == b[..j] + "|" + b[j + 1..];
    }
  }

  /** With a pipe-free IP address a payload is unambiguous exactly when neither type holds a pipe. */
  lemma UnambiguousIff(p: Option<string>, e: AuditEntry, t: int)
    requires GoodMetadata(e.metadata) && HashLike(p) && NoPipe(e.ipAddress.GetOr(""))
    ensures Unambiguous(p, e, t) <==> NoPipe(e.eventType) && NoPipe(e.entityType.GetOr(""))
  {
    if NoPipe(e.eventType) && NoPipe(e.entityType.GetOr("")) {
      forall q, f: AuditEntry, u | GoodMetadata(f.metadata) && HashLike(q) && Payload(p, e, t) == Payload(q, f, u)
        ensures p == q && t == u && SameHashedFields(e, f)
      {
        PayloadDeterminesFields(p, e, t, q, f, u);
      }
    } else {
      var f := PipeMakesTwin(e);
      TypesRunTogether(p, e, f, t);
      assert PayloadFields(p, f, t) == PayloadFields(p, f, t);
    }
  }

  /** For instance, a pipe moves from one type to the other. */
  lemma PipesCanMove(p: Option<string>, t: int)
    ensures var e := AuditEntry("a|b", Some("c"), None, None, None, None, None);
            var f := AuditEntry("a", Some("b|c"), None, None, None, None, None);
            e != f && Payload(p, e, t) == Payload(p, f, t)
  {
    TypesRunTogether(p, AuditEntry("a|b", Some("c"), None, None, None, None, None), AuditEntry("a", Some("b|c"), None, None, None, None, None), t);
  }

  // ----- chains -----

  type Decryption = Option<string> -> Option<string>

  /** The entry a verifier reads from a row, with the IP address decrypted. */
  function EntryOf(r: Record, decrypt: Decryption): AuditEntry {
    AuditEntry(r.eventType, r.entityType, r.entityId, r.organizationId, r.actorUserId, decrypt(r.ipAddress), r.metadata)
  }

  /** The hash of the record before position k. */
  function Previous(log: seq<Record>, k: nat): Option<string>
    requires k <= |log|
  {
    if k == 0 then None else Some(log[k - 1].recordHash)
  }

  predicate GoodRecord(r: Record) { GoodMetadata(r.metadata) }

  predicate GoodLog(log: seq<Record>) { forall k | 0 <= k < |log| :: GoodRecord(log[k]) }

  predicate HashMatches(h: string -> string, previousHash: Option<string>, r: Record, decrypt: Decryption)
    requires GoodRecord(r)
  {
    r.recordHash == RecordHash(h, previousHash, EntryOf(r, decrypt), r.serverTimestamp)
  }

  /** Every record links to the one before it and carries the hash of its contents. */
  predicate FullyVerified(h: string -> string, log: seq<Record>, decrypt: Decryption)
    requires GoodLog(log)
  {
    forall k {:trigger Linked(h, log, k, decrypt)} | 0 <= k < |log| :: Linked(h, log, k, decrypt)
  }

  predicate Linked(h: string -> string, log: seq<Record>, k: nat, decrypt: Decryption)
    requires GoodLog(log) && k < |log|
  {
    log[k].previousHash == Previous(log, k) && HashMatches(h, Previous(log, k), log[k], decrypt)
  }

  predicate Agree(r: Record, s: Record, decrypt1: Decryption, decrypt2: Decryption)
    requires GoodRecord(r) && GoodRecord(s)
  {
    && r.recordHash == s.recordHash && r.previousHash == s.previousHash && r.serverTimestamp == s.serverTimestamp
    && SameHashedFields(EntryOf(r, decrypt1), EntryOf(s, decrypt2))
  }

  predicate PipeFreeLog(log: seq<Record>, decrypt: Decryption) {
    forall k | 0 <= k < |log| :: PipeFree(EntryOf(log[k], decrypt))
  }

  lemma HashLikePrevious(h: string -> string, log: seq<Record>, decrypt: Decryption, k: nat)
    requires IdealHash(h) && GoodLog(log) && FullyVerified(h, log, decrypt) && k <= |log|
    ensures HashLike(Previous(log, k))
  {
    if k > 0 { assert Linked(h, log, k - 1, decrypt); }
  }

  /** Equal hashes at two positions mean equal records there, and equal hashes before them. */
  lemma SameHashSameRecord(h: string -> string, a: seq<Record>, b: seq<Record>, decryptA: Decryption, decryptB: Decryption, m: nat, n: nat)
    requires IdealHash(h) && GoodLog(a) && GoodLog(b) && m < |a| && n < |b|
    requires FullyVerified(h, a, decryptA) && FullyVerified(h, b, decryptB)
    requires PipeFreeLog(a, decryptA)
    requires a[m].recordHash == b[n].recordHash
    ensures Agree(a[m], b[n], decryptA, decryptB)
    ensures Previous(a, m) == Previous(b, n)
  {
    var p, q := Previous(a, m), Previous(b, n);
    assert Linked(h, a, m, decryptA) && Linked(h, b, n, decryptB);
    HashLikePrevious(h, a, decryptA, m);
    HashLikePrevious(h, b, decryptB, n);
    var e, f := EntryOf(a[m], decryptA), EntryOf(b[n], decryptB);
    assert h(Payload(p, e, a[m].serverTimestamp)) == h(Payload(q, f, b[n].serverTimestamp));
    PayloadDeterminesFields(p, e, a[m].serverTimestamp, q, f, b[n].serverTimestamp);
  }

  /** The hashes a log links to: none at the start, then those of its records. */
  function Links(log: seq<Record>): (r: seq<Option<string>>)
    ensures |r| == |log| + 1 && forall k | 0 <= k <= |log| :: r[k] == Previous(log, k)
  {
    seq(|log| + 1, k requires 0 <= k <= |log| => Previous(log, k))
  }

  predicate BackOne(p: seq<Option<string>>, q: seq<Option<string>>, i: nat, j: nat)
    requires 0 < i < |p| && 0 < j < |q|
  {
    p[i] == q[j] ==> p[i - 1] == q[j - 1]
  }

  /** Equal links are preceded by equal links, down to the start, so both lie equally far from it. */
  lemma {:induction false} EqualBackwards(p: seq<Option<string>>, q: seq<Option<string>>, m: nat, n: nat)
    requires m < |p| && n < |q| && p[m] == q[n] && p[0] == None == q[0]
    requires (forall i | 0 < i < |p| :: p[i].Some?) && forall j | 0 < j < |q| :: q[j].Some?
    requires forall i, j {:trigger BackOne(p, q, i, j)} | 0 < i < |p| && 0 < j < |q| :: BackOne(p, q, i, j)
    ensures m == n && forall k | 0 <= k <= m :: p[k] == q[k]
  {
    if m > 0 && n > 0 {
      assert BackOne(p, q, m, n);
      EqualBackwards(p, q, m - 1, n - 1);
    }
  }

  /**
   Two fully verified logs that end in the same hash are the same log, record by record, in
   every hashed field. So whoever remembers the last hash notices any change, insertion,
   removal or reordering.
   */
  lemma TamperEvidence(h: string -> string, a: seq<Record>, b: seq<Record>, decryptA: Decryption, decryptB: Decryption)
    requires IdealHash(h) && GoodLog(a) && GoodLog(b)
    requires FullyVerified(h, a, decryptA) && FullyVerified(h, b, decryptB)
    requires PipeFreeLog(a, decryptA)
    requires Previous(a, |a|) == Previous(b, |b|)
    ensures |a| == |b| && forall k | 0 <= k < |a| :: Agree(a[k], b[k], decryptA, decryptB)
  {
    forall i, j | 0 < i <= |a| && 0 < j <= |b|
      ensures BackOne(Links(a), Links(b), i, j)
    {
      if Links(a)[i] == Links(b)[j] { SameHashSameRecord(h, a, b, decryptA, decryptB, i - 1, j - 1); }
    }
    EqualBackwards(Links(a), Links(b), |a|, |b|);
    forall k | 0 <= k < |a|
      ensures Agree(a[k], b[k], decryptA, decryptB)
    {
      assert Links(a)[k + 1] == Links(b)[k + 1];
      SameHashSameRecord(h, a, b, decryptA, decryptB, k, k);
    }
  }
}

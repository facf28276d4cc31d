/**
 Delegation and the places of signers in the PDF.

 Fields carry a signerIndex: the place of their signer in the (order, id) order of the signers
 that count. A delegate inherits the order but gets a new, later id.
 */
module DelegationSlots {
  import opened Wrappers
  import opened Rows
  import opened Lifecycle
  import Completion

  predicate DistinctOrders(rows: seq<Request>) {
    forall i, j | 0 <= i < j < |rows| && Active(rows[i]) && Active(rows[j]) :: rows[i].order != rows[j].order
  }

  /** The condition under which one delegation is harmless: no later signer shares the order. */
  predicate LastOfItsOrder(rows: seq<Request>, i: nat)
    requires i < |rows|
  {
    forall j | i < j < |rows| && Active(rows[j]) :: rows[j].order != rows[i].order
  }

  /** The list of holders after row i is handed to row n. */
  function Replace(slots: seq<nat>, i: nat, n: nat): (r: seq<nat>)
    ensures |r| == |slots|
    ensures forall a | 0 <= a < |slots| :: r[a] == if slots[a] == i then n else slots[a]
  {
    seq(|slots|, a requires 0 <= a < |slots| => if slots[a] == i then n else slots[a])
  }

  lemma ReplacedMembers(rows: seq<Request>, i: nat, email: string)
    requires i < |rows| && Active(rows[i])
    ensures var after, r := HandOn(rows, i, email), Replace(ActiveSlots(rows), i, |rows|);
            forall x: nat :: x in r <==> x < |after| && Active(after[x])
  {
    var slots, n := ActiveSlots(rows), |rows|;
    var after, r := HandOn(rows, i, email), Replace(slots, i, n);
    assert forall j | 0 <= j < n && j != i :: after[j] == rows[j];
    assert i in slots;
    var p :| 0 <= p < |slots| && slots[p] == i;
    assert r[p] == n;
    forall x: nat
      ensures x in r <==> x < |after| && Active(after[x])
    {
      if x in r {
        var a :| 0 <= a < |r| && r[a] == x;
        assert slots[a] in slots;
      }
      if x < n && x != i && Active(rows[x]) {
        assert x in slots;
        var a :| 0 <= a < |slots| && slots[a] == x;
        assert r[a] == x;
      }
    }
  }

  /** A delegation hands over the place in the PDF exactly when no later signer shares the order. */
  lemma DelegateTakesTheSlotIff(rows: seq<Request>, i: nat, email: string)
    requires i < |rows| && Active(rows[i])
    ensures ActiveSlots(HandOn(rows, i, email)) == Replace(ActiveSlots(rows), i, |rows|) <==> LastOfItsOrder(rows, i)
  {
    var slots, n := ActiveSlots(rows), |rows|;
    var after, r := HandOn(rows, i, email), Replace(slots, i, n);
    assert forall j | 0 <= j < n && j != i :: after[j] == rows[j];
    ReplacedMembers(rows, i, email);
    if LastOfItsOrder(rows, i) {
      forall a, b | 0 <= a < b < |r|
        ensures Before(after, r[a], r[b])
      {
        assert Before(rows, slots[a], slots[b]);
        assert slots[b] in slots && slots[a] in slots;
      }
      OrderedUnique(after, ActiveSlots(after), r);
    } else {
      var j :| i < j < n && Active(rows[j]) && rows[j].order == rows[i].order;
      assert i in slots && j in slots;
      var a, b :| 0 <= a < |slots| && 0 <= b < |slots| && slots[a] == i && slots[b] == j;
      assert Before(rows, i, j) && a != b;
      assert !Before(after, r[a], r[b]);
    }
  }

  lemma TwoPlaces(rows: seq<Request>, x: nat, y: nat)
    requires x < |rows| && y < |rows| && Active(rows[x]) && Active(rows[y]) && Before(rows, x, y)
    requires forall z | 0 <= z < |rows| && z != x && z != y :: !Active(rows[z])
    ensures ActiveSlots(rows) == [x, y]
  {
    assert forall z: nat :: z in [x, y] <==> z < |rows| && Active(rows[z]);
    OrderedUnique(rows, ActiveSlots(rows), [x, y]);
  }

  lemma ThreePlaces(rows: seq<Request>, x: nat, y: nat, z: nat)
    requires x < |rows| && y < |rows| && z < |rows| && Active(rows[x]) && Active(rows[y]) && Active(rows[z])
    requires Before(rows, x, y) && Before(rows, y, z)
    requires forall w | 0 <= w < |rows| && w != x && w != y && w != z :: !Active(rows[w])
    ensures ActiveSlots(rows) == [x, y, z]
  {
    assert forall w: nat :: w in [x, y, z] <==> w < |rows| && Active(rows[w]);
    OrderedUnique(rows, ActiveSlots(rows), [x, y, z]);
  }

  function SignerAt(email: string, order: int): Request { Request(email, SignerRole, order, Sent, false, None, None) }

  /** For instance, of two signers with the default order the second moves to the first place when the first hands on. */
  lemma EqualOrdersSwapPlaces(email: string)
    ensures var rows := [SignerAt("a", 1), SignerAt("b", 1)];
            ActiveSlots(rows) == [0, 1] && ActiveSlots(HandOn(rows, 0, email)) == [1, 2]
  {
    var rows := [SignerAt("a", 1), SignerAt("b", 1)];
    TwoPlaces(rows, 0, 1);
    TwoPlaces(HandOn(rows, 0, email), 1, 2);
  }

  // ----- a row that is no signer's is handed on -----

  /** The delegate of a row that does not count stands behind every signer that counts. */
  predicate BehindAll(rows: seq<Request>, i: nat)
    requires i < |rows|
  {
    forall j | 0 <= j < |rows| && Active(rows[j]) :: rows[j].order <= rows[i].order
  }

  lemma AddedMembers(rows: seq<Request>, i: nat, email: string)
    requires i < |rows| && !Active(rows[i])
    ensures var after := HandOn(rows, i, email);
            && |after| == |rows| + 1 && Active(after[|rows|]) && after[|rows|].order == rows[i].order
            && (forall j | 0 <= j < |rows| :: Active(after[j]) == Active(rows[j]) && after[j].order == rows[j].order)
            && forall x: nat :: x in ActiveSlots(rows) + [|rows|] <==> x < |after| && Active(after[x])
  {
    var after := HandOn(rows, i, email);
    assert forall j | 0 <= j < |rows| && j != i :: after[j] == rows[j];
  }

  /** A delegation of a row that does not count adds a last place and moves no other exactly when the delegate stands behind all. */
  lemma AddedPlaceIsLastIff(rows: seq<Request>, i: nat, email: string)
    requires i < |rows| && !Active(rows[i])
    ensures ActiveSlots(HandOn(rows, i, email)) == ActiveSlots(rows) + [|rows|] <==> BehindAll(rows, i)
  {
    hide HandOn;
    var slots, n := ActiveSlots(rows), |rows|;
    var after, r := HandOn(rows, i, email), slots + [n];
    AddedMembers(rows, i, email);
    if BehindAll(rows, i) {
      forall a, b | 0 <= a < b < |r|
        ensures Before(after, r[a], r[b])
      {
        assert slots[a] in slots;
        if b < |slots| { assert Before(rows, slots[a], slots[b]); }
      }
      OrderedUnique(after, ActiveSlots(after), r);
    } else {
      var j :| 0 <= j < n && Active(rows[j]) && rows[j].order > rows[i].order;
      assert j in slots;
      var a :| 0 <= a < |slots| && slots[a] == j;
      assert r[a] == j && r[|slots|] == n && !Before(after, j, n);
    }
  }

  /** For instance, a cc recipient with the default order hands on the copy: the delegate moves in before the second signer. */
  lemma HandedOnCopyShiftsPlaces(email: string)
    ensures var rows := [SignerAt("a", 1), SignerAt("b", 2), SignerAt("c", 1).(role := CcRole)];
            DistinctOrders(rows) && ActiveSlots(rows) == [0, 1] && ActiveSlots(HandOn(rows, 2, email)) == [0, 3, 1]
  {
    var rows := [SignerAt("a", 1), SignerAt("b", 2), SignerAt("c", 1).(role := CcRole)];
    TwoPlaces(rows, 0, 1);
    ThreePlaces(HandOn(rows, 2, email), 0, 3, 1);
  }

  // ----- every delegation -----

  /** Who should stand where after row i is handed on: the delegate in place of a signer that counts, or behind all. */
  function HandedOver(rows: seq<Request>, i: nat): seq<nat>
    requires i < |rows|
  {
    if Active(rows[i]) then Replace(ActiveSlots(rows), i, |rows|) else ActiveSlots(rows) + [|rows|]
  }

  /** When row i may be handed on without moving anybody else. */
  predicate MovesNobody(rows: seq<Request>, i: nat)
    requires i < |rows|
  {
    if Active(rows[i]) then LastOfItsOrder(rows, i) else BehindAll(rows, i)
  }

  lemma HandOnMovesNobodyIff(rows: seq<Request>, i: nat, email: string)
    requires i < |rows|
    ensures ActiveSlots(HandOn(rows, i, email)) == HandedOver(rows, i) <==> MovesNobody(rows, i)
  {
    if Active(rows[i]) { DelegateTakesTheSlotIff(rows, i, email); } else { AddedPlaceIsLastIff(rows, i, email); }
  }

  /** What delegate asks of the row; it does not ask for the role. */
  predicate MayBeHandedOn(r: Request) { r.status != Signed && r.delegatedTo.None? }

  /**
   For every set of rows, no delegation that delegate accepts moves anybody exactly when signers
   that count and have not signed share their order with no later one, and all other rows that may
   be handed on have no smaller order than the signers that count. The default order is the same
   for every recipient.
   */
  lemma EveryDelegationMovesNobodyIff(rows: seq<Request>)
    ensures (forall i, email {:trigger HandOn(rows, i, email)} | 0 <= i < |rows| && MayBeHandedOn(rows[i]) ::
               ActiveSlots(HandOn(rows, i, email)) == HandedOver(rows, i))
       <==> && (forall i, j | 0 <= i < j < |rows| && Active(rows[i]) && Active(rows[j]) && rows[i].order == rows[j].order ::
                  rows[i].status == Signed)
            && forall i, j | 0 <= i < |rows| && 0 <= j < |rows| && MayBeHandedOn(rows[i]) && !IsSigner(rows[i]) && Active(rows[j]) ::
                 rows[j].order <= rows[i].order
  {
    forall i, email {:trigger HandOn(rows, i, email)} | 0 <= i < |rows| && MayBeHandedOn(rows[i])
      ensures ActiveSlots(HandOn(rows, i, email)) == HandedOver(rows, i) <==> MovesNobody(rows, i)
    {
      HandOnMovesNobodyIff(rows, i, email);
    }
    MovesNobodyEverywhereIff(rows);
    if i :| 0 <= i < |rows| && MayBeHandedOn(rows[i]) && !MovesNobody(rows, i) {
      assert ActiveSlots(HandOn(rows, i, "")) != HandedOver(rows, i);
    }
  }

  lemma MovesNobodyEverywhereIff(rows: seq<Request>)
    ensures (forall i | 0 <= i < |rows| && MayBeHandedOn(rows[i]) :: MovesNobody(rows, i))
       <==> && (forall i, j | 0 <= i < j < |rows| && Active(rows[i]) && Active(rows[j]) && rows[i].order == rows[j].order ::
                  rows[i].status == Signed)
            && forall i, j | 0 <= i < |rows| && 0 <= j < |rows| && MayBeHandedOn(rows[i]) && !IsSigner(rows[i]) && Active(rows[j]) ::
                 rows[j].order <= rows[i].order
  {
    if i, j :| 0 <= i < j < |rows| && Active(rows[i]) && Active(rows[j]) && rows[i].order == rows[j].order && rows[i].status != Signed {
      assert MayBeHandedOn(rows[i]) && !MovesNobody(rows, i);
    }
    if i, j :| 0 <= i < |rows| && 0 <= j < |rows| && MayBeHandedOn(rows[i]) && !IsSigner(rows[i]) && Active(rows[j])
               && rows[j].order > rows[i].order {
      assert !MovesNobody(rows, i);
    }
  }

  /** Of the signers that count alone: all their delegations move nobody exactly when no two of them share an order. */
  lemma SignersDelegationsSafeIffOrdersDistinct(rows: seq<Request>)
    ensures (forall i, email {:trigger HandOn(rows, i, email)} | 0 <= i < |rows| && Active(rows[i]) ::
               ActiveSlots(HandOn(rows, i, email)) == Replace(ActiveSlots(rows), i, |rows|))
       <==> DistinctOrders(rows)
  {
    forall i, email {:trigger HandOn(rows, i, email)} | 0 <= i < |rows| && Active(rows[i])
      ensures ActiveSlots(HandOn(rows, i, email)) == Replace(ActiveSlots(rows), i, |rows|) <==> LastOfItsOrder(rows, i)
    {
      DelegateTakesTheSlotIff(rows, i, email);
    }
    if !DistinctOrders(rows) {
      var i, j :| 0 <= i < j < |rows| && Active(rows[i]) && Active(rows[j]) && rows[i].order == rows[j].order;
      assert !LastOfItsOrder(rows, i);
      assert ActiveSlots(HandOn(rows, i, "")) != Replace(ActiveSlots(rows), i, |rows|);
    }
  }

  // ----- runs -----

  /** The holders of the places, followed from delegator to delegate through a run. */
  function Holders(slots: seq<nat>, s: State, steps: seq<Step>): seq<nat>
    decreases |steps|
  {
    if steps == [] then slots else Holders(Handed(slots, s, steps[0]), Next(s, steps[0]), steps[1..])
  }

  function Handed(slots: seq<nat>, s: State, step: Step): seq<nat> {
    if step.DelegateBy? && MayDelegate(s, step.i) then
      if Active(s.requests[step.i]) then Replace(slots, step.i, |s.requests|) else slots + [|s.requests|]
    else slots
  }

  /** The rows are neither replaced nor deleted. */
  predicate KeepsRows(step: Step) { !step.Send? && !step.DeleteDocument? }

  /** Whoever hands on moves nobody else. */
  predicate PlacesGuard(s: State, step: Step) {
    step.DelegateBy? && MayDelegate(s, step.i) ==> MovesNobody(s.requests, step.i)
  }

  predicate SameOrders(a: seq<Request>, b: seq<Request>) {
    |a| == |b| && forall i | 0 <= i < |a| :: Active(a[i]) == Active(b[i]) && a[i].order == b[i].order
  }

  lemma SignKeepsOrders(s: State, i: nat, sub: Submission)
    ensures SameOrders(s.requests, SignStep(s, i, sub).0.requests)
  {
    hide PdfEntries, AllSignersSigned;
  }

  lemma StepKeepsOrders(s: State, step: Step)
    requires KeepsRows(step) && !(step.DelegateBy? && MayDelegate(s, step.i))
    ensures SameOrders(s.requests, Next(s, step).requests)
  {
    if step.SignBy? {
      SignKeepsOrders(s, step.i, step.sub);
    } else {
      hide SignStep, AllApproved;
    }
  }

  /** A step moves nobody exactly when it satisfies its guard. */
  lemma StepMovesNobodyIff(s: State, step: Step)
    requires KeepsRows(step)
    ensures ActiveSlots(Next(s, step).requests) == Handed(ActiveSlots(s.requests), s, step) <==> PlacesGuard(s, step)
  {
    if step.DelegateBy? && MayDelegate(s, step.i) {
      HandOnMovesNobodyIff(s.requests, step.i, step.email);
    } else {
      StepKeepsOrders(s, step);
      Completion.SameSlots(s.requests, Next(s, step).requests);
    }
  }

  predicate PlacesRun(s: State, steps: seq<Step>)
    decreases |steps|
  {
    steps == [] || (KeepsRows(steps[0]) && PlacesGuard(s, steps[0]) && PlacesRun(Next(s, steps[0]), steps[1..]))
  }

  /**
   Through any run of signing, viewing, declining, deciding, failing, editing and guarded delegating,
   chains of delegations included, the k-th signer that counts is the current holder of the k-th
   original place, or of one added behind.
   */
  lemma {:induction false} SlotsFollowHolders(s: State, steps: seq<Step>)
    requires PlacesRun(s, steps)
    ensures ActiveSlots(Run(s, steps).requests) == Holders(ActiveSlots(s.requests), s, steps)
    decreases |steps|
  {
    if steps != [] {
      StepMovesNobodyIff(s, steps[0]);
      SlotsFollowHolders(Next(s, steps[0]), steps[1..]);
    }
  }

  // ----- distinct orders are enough -----

  /** A row that is no signer's is handed on only behind all signers that count. */
  predicate OthersHandOnBehind(s: State, step: Step) {
    step.DelegateBy? && MayDelegate(s, step.i) && !Active(s.requests[step.i]) ==>
      forall j | 0 <= j < |s.requests| && Active(s.requests[j]) :: s.requests[j].order < s.requests[step.i].order
  }

  predicate SigningRun(s: State, steps: seq<Step>)
    decreases |steps|
  {
    steps == [] || (KeepsRows(steps[0]) && OthersHandOnBehind(s, steps[0]) && SigningRun(Next(s, steps[0]), steps[1..]))
  }

  lemma HandOnKeepsDistinctOrders(rows: seq<Request>, i: nat, email: string)
    requires i < |rows| && DistinctOrders(rows)
    requires !Active(rows[i]) ==> forall j | 0 <= j < |rows| && Active(rows[j]) :: rows[j].order < rows[i].order
    ensures DistinctOrders(HandOn(rows, i, email)) && MovesNobody(rows, i)
  {
    var after := HandOn(rows, i, email);
    assert forall j | 0 <= j < |rows| && j != i :: after[j] == rows[j];
  }

  /** If the signers' orders are pairwise distinct, only a row that is no signer's can move anybody. */
  lemma {:induction false} DistinctOrdersAreSafe(s: State, steps: seq<Step>)
    requires DistinctOrders(s.requests) && SigningRun(s, steps)
    ensures PlacesRun(s, steps) && DistinctOrders(Run(s, steps).requests)
    decreases |steps|
  {
    if steps != [] {
      var step := steps[0];
      if step.DelegateBy? && MayDelegate(s, step.i) {
        HandOnKeepsDistinctOrders(s.requests, step.i, step.email);
      } else {
        StepKeepsOrders(s, step);
      }
      DistinctOrdersAreSafe(Next(s, step), steps[1..]);
    }
  }

  // ----- the entries of the PDF -----

  lemma {:induction false} FieldEntriesExact(fields: seq<Field>, slot: nat, signer: string, mark: string, e: PdfEntry)
    ensures e in FieldEntries(fields, slot, signer, mark)
       <==> e.signer == signer && e.mark == mark
            && exists f | 0 <= f < |fields| :: fields[f].signerIndex == slot && fields[f].clientId == e.fieldId
  {
    if fields != [] {
      FieldEntriesExact(fields[1..], slot, signer, mark, e);
      if f :| 0 <= f < |fields[1..]| && fields[1..][f].signerIndex == slot && fields[1..][f].clientId == e.fieldId {
        assert fields[f + 1] == fields[1..][f];
      }
      if f :| 0 <= f < |fields| && fields[f].signerIndex == slot && fields[f].clientId == e.fieldId {
        assert f > 0 ==> fields[1..][f - 1] == fields[f];
      }
    }
  }

  /** The entry comes from the fields of slot a. */
  predicate FromSlot(rows: seq<Request>, fields: seq<Field>, slots: seq<nat>, a: nat, e: PdfEntry)
    requires a < |slots| && slots[a] < |rows|
  {
    var r := rows[slots[a]];
    r.mark.Some? && e in FieldEntries(fields, a, r.email, r.mark.value)
  }

  lemma {:induction false} EntriesFromExact(rows: seq<Request>, fields: seq<Field>, slots: seq<nat>, k: nat, e: PdfEntry)
    requires k <= |slots| && forall a | 0 <= a < |slots| :: slots[a] < |rows|
    ensures e in PdfEntriesFrom(rows, fields, slots, k) <==> exists a | k <= a < |slots| :: FromSlot(rows, fields, slots, a, e)
    decreases |slots| - k
  {
    if k < |slots| {
      EntriesFromExact(rows, fields, slots, k + 1, e);
      var r := rows[slots[k]];
      var own := if r.mark.Some? then FieldEntries(fields, k, r.email, r.mark.value) else [];
      assert PdfEntriesFrom(rows, fields, slots, k) == own + PdfEntriesFrom(rows, fields, slots, k + 1);
      assert e in own <==> FromSlot(rows, fields, slots, k, e);
    }
  }

  predicate PairsWithHolder(rows: seq<Request>, field: Field, slots: seq<nat>, e: PdfEntry)
    requires forall a | 0 <= a < |slots| :: slots[a] < |rows|
  {
    var k := field.signerIndex;
    && 0 <= k < |slots|
    && rows[slots[k]].mark == Some(e.mark)
    && e == PdfEntry(field.clientId, rows[slots[k]].email, e.mark)
  }

  /**
   An entry is in the PDF exactly when it pairs a field with the signer standing at the field's
   signerIndex, and carries that signer's mark.
   */
  lemma EntriesPairFieldsWithHolders(rows: seq<Request>, fields: seq<Field>, e: PdfEntry)
    ensures e in PdfEntries(rows, fields)
       <==> exists f | 0 <= f < |fields| :: PairsWithHolder(rows, fields[f], ActiveSlots(rows), e)
  {
    var slots := ActiveSlots(rows);
    EntriesFromExact(rows, fields, slots, 0, e);
    if a :| 0 <= a < |slots| && FromSlot(rows, fields, slots, a, e) {
      FieldEntriesExact(fields, a, rows[slots[a]].email, rows[slots[a]].mark.value, e);
      var f :| 0 <= f < |fields| && fields[f].signerIndex == a && fields[f].clientId == e.fieldId;
    }
    if f :| 0 <= f < |fields| && PairsWithHolder(rows, fields[f], slots, e) {
      var k := fields[f].signerIndex;
      FieldEntriesExact(fields, k, rows[slots[k]].email, e.mark, e);
      assert FromSlot(rows, fields, slots, k, e);
    }
  }

  /** Field f stands at place k, whose holder left a mark, and e says so. */
  predicate EntryOf(rows: seq<Request>, fields: seq<Field>, slots: seq<nat>, k: nat, f: nat, e: PdfEntry)
    requires forall a | 0 <= a < |slots| :: slots[a] < |rows|
  {
    f < |fields| && fields[f].signerIndex == k && PairsWithHolder(rows, fields[f], slots, e)
  }

  /** Entry n is that of place at[n].0 and field at[n].1, by places and then by fields, and each such pair has its entry. */
  predicate InOrder(rows: seq<Request>, fields: seq<Field>, slots: seq<nat>, from: nat, at: seq<(nat, nat)>, entries: seq<PdfEntry>)
    requires forall a | 0 <= a < |slots| :: slots[a] < |rows|
  {
    && |at| == |entries|
    && (forall n | 0 <= n < |at| :: from <= at[n].0 && EntryOf(rows, fields, slots, at[n].0, at[n].1, entries[n]))
    && (forall m, n | 0 <= m < n < |at| :: at[m].0 < at[n].0 || (at[m].0 == at[n].0 && at[m].1 < at[n].1))
    && forall k: nat, f: nat | from <= k < |slots| && f < |fields| && fields[f].signerIndex == k && rows[slots[k]].mark.Some? :: (k, f) in at
  }

  /** The entries es are those of the fields of place k from position from on, at the positions fs, in their order. */
  predicate OfFields(fields: seq<Field>, from: nat, k: nat, signer: string, mark: string, fs: seq<nat>, es: seq<PdfEntry>) {
    && |fs| == |es|
    && (forall n | 0 <= n < |fs| ::
          from <= fs[n] < |fields| && fields[fs[n]].signerIndex == k && es[n] == PdfEntry(fields[fs[n]].clientId, signer, mark))
    && (forall m, n | 0 <= m < n < |fs| :: fs[m] < fs[n])
    && forall f | from <= f < |fields| && fields[f].signerIndex == k :: f in fs
  }

  lemma FieldInFront(fields: seq<Field>, from: nat, k: nat, signer: string, mark: string, fs: seq<nat>, es: seq<PdfEntry>)
    requires from < |fields| && OfFields(fields, from + 1, k, signer, mark, fs, es)
    ensures if fields[from].signerIndex == k
            then OfFields(fields, from, k, signer, mark, [from] + fs, [PdfEntry(fields[from].clientId, signer, mark)] + es)
            else OfFields(fields, from, k, signer, mark, fs, es)
  {
  }

  lemma FieldEntriesFrom(fields: seq<Field>, from: nat, k: nat, signer: string, mark: string)
    requires from < |fields|
    ensures FieldEntries(fields[from..], k, signer, mark)
         == (if fields[from].signerIndex == k then [PdfEntry(fields[from].clientId, signer, mark)] else [])
          + FieldEntries(fields[from + 1..], k, signer, mark)
  {
    assert fields[from..][1..] == fields[from + 1..];
  }

  lemma {:induction false} FieldsInOrder(fields: seq<Field>, from: nat, k: nat, signer: string, mark: string) returns (fs: seq<nat>)
    requires from <= |fields|
    ensures OfFields(fields, from, k, signer, mark, fs, FieldEntries(fields[from..], k, signer, mark))
    decreases |fields| - from
  {
    fs := [];
    if from < |fields| {
      hide *;
      fs := FieldsInOrder(fields, from + 1, k, signer, mark);
      var es := FieldEntries(fields[from + 1..], k, signer, mark);
      FieldInFront(fields, from, k, signer, mark, fs, es);
      FieldEntriesFrom(fields, from, k, signer, mark);
      if fields[from].signerIndex == k { fs := [from] + fs; } else { assert [] + es == es; }
    }
  }

  lemma PlaceInFront(rows: seq<Request>, fields: seq<Field>, slots: seq<nat>, k: nat, fs: seq<nat>, own: seq<PdfEntry>,
                     at: seq<(nat, nat)>, entries: seq<PdfEntry>)
    requires (forall a | 0 <= a < |slots| :: slots[a] < |rows|) && k < |slots| && InOrder(rows, fields, slots, k + 1, at, entries)
    requires |fs| == |own| && (forall n | 0 <= n < |fs| :: EntryOf(rows, fields, slots, k, fs[n], own[n]))
    requires forall m, n | 0 <= m < n < |fs| :: fs[m] < fs[n]
    requires forall f: nat | f < |fields| && fields[f].signerIndex == k && rows[slots[k]].mark.Some? :: f in fs
    ensures InOrder(rows, fields, slots, k, seq(|fs|, n requires 0 <= n < |fs| => (k, fs[n])) + at, own + entries)
  {
    hide EntryOf;
    var front := seq(|fs|, n requires 0 <= n < |fs| => (k, fs[n]));
    forall f: nat | f in fs ensures (k, f) in front {
      var n :| 0 <= n < |fs| && fs[n] == f;
      assert front[n] == (k, f);
    }
  }

  lemma {:induction false} PlacesInOrder(rows: seq<Request>, fields: seq<Field>, slots: seq<nat>, k: nat) returns (at: seq<(nat, nat)>)
    requires (forall a | 0 <= a < |slots| :: slots[a] < |rows|) && k <= |slots|
    ensures InOrder(rows, fields, slots, k, at, PdfEntriesFrom(rows, fields, slots, k))
    decreases |slots| - k
  {
    at := [];
    if k < |slots| {
      var r := rows[slots[k]];
      at := PlacesInOrder(rows, fields, slots, k + 1);
      var fs: seq<nat> := [];
      if r.mark.Some? {
        fs := FieldsInOrder(fields, 0, k, r.email, r.mark.value);
        assert fields[0..] == fields;
      }
      var own := if r.mark.Some? then FieldEntries(fields, k, r.email, r.mark.value) else [];
      hide InOrder;
      PlaceInFront(rows, fields, slots, k, fs, own, at, PdfEntriesFrom(rows, fields, slots, k + 1));
      at := seq(|fs|, n requires 0 <= n < |fs| => (k, fs[n])) + at;
    }
  }

  /** The PDF has one entry for each field that stands at the place of a signer with a mark, by places and then by fields. */
  lemma EntriesInOrder(rows: seq<Request>, fields: seq<Field>)
    ensures forall a | 0 <= a < |ActiveSlots(rows)| :: ActiveSlots(rows)[a] < |rows|
    ensures exists at :: InOrder(rows, fields, ActiveSlots(rows), 0, at, PdfEntries(rows, fields))
  {
    var slots := ActiveSlots(rows);
    var at := PlacesInOrder(rows, fields, slots, 0);
    assert PdfEntries(rows, fields) == PdfEntriesFrom(rows, fields, slots, 0);
    hide *;
    assert InOrder(rows, fields, slots, 0, at, PdfEntries(rows, fields));
  }

  /**
   So after a run that moved nobody, an entry is in the PDF exactly when it pairs a field with
   whoever now holds the place of the field's signerIndex, and carries that holder's mark.
   */
  lemma EntriesFollowHolders(s: State, steps: seq<Step>, e: PdfEntry)
    requires PlacesRun(s, steps)
    ensures var t, holders := Run(s, steps), Holders(ActiveSlots(s.requests), s, steps);
            && (forall a | 0 <= a < |holders| :: holders[a] < |t.requests|)
            && (e in PdfEntries(t.requests, t.fields)
                <==> exists f | 0 <= f < |t.fields| :: PairsWithHolder(t.requests, t.fields[f], holders, e))
  {
    var t := Run(s, steps);
    SlotsFollowHolders(s, steps);
    EntriesPairFieldsWithHolders(t.requests, t.fields, e);
    assert forall a | 0 <= a < |ActiveSlots(t.requests)| :: ActiveSlots(t.requests)[a] in ActiveSlots(t.requests);
  }

  // ----- the index a signer is shown -----

  function BeforeSet(rows: seq<Request>, i: nat, p: Request -> bool): set<nat>
    requires i < |rows|
  {
    set j | 0 <= j < |rows| && p(rows[j]) && Before(rows, j, i)
  }

  lemma {:induction false} Prefix(ids: seq<nat>, k: nat)
    requires k <= |ids| && forall a, b | 0 <= a < b < |ids| :: ids[a] != ids[b]
    ensures |set a | 0 <= a < k :: ids[a]| == k
  {
    var s := set a | 0 <= a < k :: ids[a];
    if k == 0 {
      assert s == {};
    } else {
      Prefix(ids, k - 1);
      var t := set a | 0 <= a < k - 1 :: ids[a];
      assert s == t + {ids[k - 1]};
      assert ids[k - 1] !in t;
    }
  }

  /** The rows listed before position k are those that come before the row there. */
  lemma FrontComesBefore(rows: seq<Request>, p: Request -> bool, k: nat, j: nat)
    requires k < |Ordered(rows, p)|
    ensures var ids := Ordered(rows, p);
            (exists a | 0 <= a < k :: ids[a] == j) <==> j < |rows| && p(rows[j]) && Before(rows, j, ids[k])
  {
    var ids := Ordered(rows, p);
    if a :| 0 <= a < k && ids[a] == j {
      assert Before(rows, ids[a], ids[k]) && ids[a] in ids;
    }
    if j < |rows| && p(rows[j]) && Before(rows, j, ids[k]) {
      assert j in ids;
      var a :| 0 <= a < |ids| && ids[a] == j;
      assert !Before(rows, ids[k], ids[a]);
    }
  }

  lemma ListedOnce(rows: seq<Request>, ids: seq<nat>)
    requires SortedBy(rows, ids)
    ensures forall a, b | 0 <= a < b < |ids| :: ids[a] != ids[b]
  {
    forall a, b | 0 <= a < b < |ids| ensures ids[a] != ids[b] { assert Before(rows, ids[a], ids[b]); }
  }

  /** A row's place in an ordered list is the number of listed rows before it. */
  lemma PlaceCountsPredecessors(rows: seq<Request>, i: nat, p: Request -> bool)
    requires i < |rows| && p(rows[i])
    ensures IndexOf(Ordered(rows, p), i) == |BeforeSet(rows, i, p)|
  {
    var ids := Ordered(rows, p);
    assert i in ids;
    var k := IndexOf(ids, i);
    assert |set a | 0 <= a < k :: ids[a]| == k by {
      ListedOnce(rows, ids);
      Prefix(ids, k);
    }
    var front := set a | 0 <= a < k :: ids[a];
    forall j: nat
      ensures j in front <==> j in BeforeSet(rows, i, p)
    {
      FrontComesBefore(rows, p, k, j);
    }
    assert front == BeforeSet(rows, i, p);
  }

  lemma SameSizeIff(part: set<nat>, whole: set<nat>)
    requires part <= whole
    ensures |part| == |whole| <==> part == whole
  {
    assert whole == part + (whole - part);
    assert |whole| == |part| + |whole - part|;
  }

  predicate DelegatedBefore(rows: seq<Request>, i: nat)
    requires i < |rows|
  {
    exists j | 0 <= j < |rows| :: IsSigner(rows[j]) && rows[j].delegatedTo.Some? && Before(rows, j, i)
  }

  lemma SamePredecessorsIff(rows: seq<Request>, i: nat)
    requires i < |rows|
    ensures BeforeSet(rows, i, Active) <= BeforeSet(rows, i, IsSigner)
    ensures BeforeSet(rows, i, Active) == BeforeSet(rows, i, IsSigner) <==> !DelegatedBefore(rows, i)
  {
    var all, active := BeforeSet(rows, i, IsSigner), BeforeSet(rows, i, Active);
    if DelegatedBefore(rows, i) {
      var j :| 0 <= j < |rows| && IsSigner(rows[j]) && rows[j].delegatedTo.Some? && Before(rows, j, i);
      assert j in all && j !in active;
    } else {
      forall j | j in all ensures j in active { assert IsSigner(rows[j]) && Before(rows, j, i); }
    }
  }

  /**
   The index under which getByToken and sign look up a signer's fields counts delegated rows,
   the PDF does not: the two agree exactly when no delegated signer row comes before.
   */
  lemma ShownIndexIsPdfIndexIff(rows: seq<Request>, i: nat)
    requires i < |rows| && Active(rows[i])
    ensures SignerIndex(rows, i) == IndexOf(ActiveSlots(rows), i) <==> !DelegatedBefore(rows, i)
  {
    PlaceCountsPredecessors(rows, i, IsSigner);
    PlaceCountsPredecessors(rows, i, Active);
    SamePredecessorsIff(rows, i);
    SameSizeIff(BeforeSet(rows, i, Active), BeforeSet(rows, i, IsSigner));
  }

  /** For instance, when the first of two signers hands on, the second is shown another's fields. */
  lemma DelegationShiftsTheShownIndex(email: string)
    ensures var rows := HandOn([Request("a", SignerRole, 1, Sent, false, None, None), Request("b", SignerRole, 2, Sent, false, None, None)], 0, email);
            Active(rows[1]) && SignerIndex(rows, 1) != IndexOf(ActiveSlots(rows), 1)
  {
    var rows := HandOn([Request("a", SignerRole, 1, Sent, false, None, None), Request("b", SignerRole, 2, Sent, false, None, None)], 0, email);
    assert IsSigner(rows[0]) && rows[0].delegatedTo.Some? && Before(rows, 0, 1);
    ShownIndexIsPdfIndexIff(rows, 1);
  }
}

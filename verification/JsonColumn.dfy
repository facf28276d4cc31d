/**
 Canonical JSON text and the metadata column: which values the text tells apart, and when
 metadata read back from the column hashes as it did when written.
 */
module JsonColumn {
  import opened CanonicalJson

  // ----- values without null or undefined -----

  predicate NullFree(v: Json) {
    match v
    case Undefined => false
    case Null => false
    case Arr(items) => forall i | 0 <= i < |items| :: NullFree(items[i])
    case Obj(ms) => forall i | 0 <= i < |ms| :: NullFree(ms[i].value)
    case _ => true
  }

  /** Equality of JavaScript values that ignores the order of object keys. */
  predicate SameUpToKeyOrder(v: Json, w: Json)
    decreases v
  {
    match v
    case Arr(a) => w.Arr? && |a| == |w.items| && forall i | 0 <= i < |a| :: SameUpToKeyOrder(a[i], w.items[i])
    case Obj(a) =>
      && w.Obj?
      && (forall i | 0 <= i < |a| :: MatchedIn(a[i], w.members))
      && forall j | 0 <= j < |w.members| :: HasKey(a, w.members[j].key)
    case _ => v == w
  }

  predicate MatchedIn(x: Member, ms: seq<Member>)
    decreases x
  {
    exists j | 0 <= j < |ms| :: ms[j].key == x.key && SameUpToKeyOrder(x.value, ms[j].value)
  }

  predicate HasKey(ms: seq<Member>, key: string) { exists i | 0 <= i < |ms| :: ms[i].key == key }

  lemma ArraysShowAlikeIff(a: seq<Json>, b: seq<Json>)
    requires WellFormed(Arr(a)) && WellFormed(Arr(b)) && NullFree(Arr(a)) && NullFree(Arr(b))
    requires forall i | 0 <= i < |a| && i < |b| :: Visible(a[i]) == Visible(b[i]) <==> SameUpToKeyOrder(a[i], b[i])
    ensures Visible(Arr(a)) == Visible(Arr(b)) <==> SameUpToKeyOrder(Arr(a), Arr(b))
  {
    var da, db := VisibleItems(a), VisibleItems(b);
    NotOneNull(a);
    NotOneNull(b);
    if SameUpToKeyOrder(Arr(a), Arr(b)) {
      assert da == db;
    }
    if da == db {
      forall i | 0 <= i < |a| ensures SameUpToKeyOrder(a[i], b[i]) { assert da[i] == db[i]; }
    }
  }

  lemma NotOneNull(items: seq<Json>)
    requires WellFormed(Arr(items)) && NullFree(Arr(items))
    ensures Visible(Arr(items)) == DArr(VisibleItems(items))
  {
    var ds := VisibleItems(items);
    if |items| == 1 {
      FirstCharacter(items[0]);
      assert ds[0] != DNull;
    }
  }

  lemma SameKeysAndValues(ma: map<string, Doc>, mb: map<string, Doc>)
    requires forall k | k in ma :: k in mb && mb[k] == ma[k]
    requires forall k | k in mb :: k in ma
    ensures ma == mb
  {
  }

  lemma MatchedShowsSame(x: Member, a: seq<Member>, i: nat, b: seq<Member>)
    requires WellFormed(Obj(a)) && WellFormed(Obj(b)) && i < |a| && x == a[i] && MatchedIn(x, b)
    requires forall j | 0 <= j < |b| && x.key == b[j].key ::
               SameUpToKeyOrder(x.value, b[j].value) ==> Visible(x.value) == Visible(b[j].value)
    ensures x.key in VisibleMembers(a) && x.key in VisibleMembers(b)
    ensures VisibleMembers(b)[x.key] == VisibleMembers(a)[x.key]
  {
    var j :| 0 <= j < |b| && b[j].key == x.key && SameUpToKeyOrder(x.value, b[j].value);
    assert VisibleMembers(a)[a[i].key] == Visible(x.value);
    assert VisibleMembers(b)[b[j].key] == Visible(b[j].value);
  }

  lemma SameMembersShowSame(a: seq<Member>, b: seq<Member>)
    requires WellFormed(Obj(a)) && WellFormed(Obj(b)) && SameUpToKeyOrder(Obj(a), Obj(b))
    requires forall i, j | 0 <= i < |a| && 0 <= j < |b| && a[i].key == b[j].key ::
               SameUpToKeyOrder(a[i].value, b[j].value) ==> Visible(a[i].value) == Visible(b[j].value)
    ensures VisibleMembers(a) == VisibleMembers(b)
  {
    var ma, mb := VisibleMembers(a), VisibleMembers(b);
    forall k | k in ma
      ensures k in mb && mb[k] == ma[k]
    {
      var i :| 0 <= i < |a| && a[i].key == k;
      MatchedShowsSame(a[i], a, i, b);
    }
    forall k | k in mb
      ensures k in ma
    {
      var j :| 0 <= j < |b| && b[j].key == k;
      assert HasKey(a, b[j].key);
    }
    SameKeysAndValues(ma, mb);
  }

  lemma SameShownMembersSame(a: seq<Member>, b: seq<Member>)
    requires WellFormed(Obj(a)) && WellFormed(Obj(b)) && VisibleMembers(a) == VisibleMembers(b)
    requires forall i, j | 0 <= i < |a| && 0 <= j < |b| && a[i].key == b[j].key ::
               Visible(a[i].value) == Visible(b[j].value) ==> SameUpToKeyOrder(a[i].value, b[j].value)
    ensures SameUpToKeyOrder(Obj(a), Obj(b))
  {
    var ma, mb := VisibleMembers(a), VisibleMembers(b);
    forall i | 0 <= i < |a| ensures MatchedIn(a[i], b) {
      assert a[i].key in mb;
      var j :| 0 <= j < |b| && b[j].key == a[i].key;
      assert Visible(a[i].value) == ma[a[i].key] && Visible(b[j].value) == mb[b[j].key];
    }
    forall j | 0 <= j < |b| ensures HasKey(a, b[j].key) { assert b[j].key in ma; }
  }

  lemma {:induction false} ShowAlikeIff(v: Json, w: Json)
    requires WellFormed(v) && WellFormed(w) && NullFree(v) && NullFree(w)
    ensures Visible(v) == Visible(w) <==> SameUpToKeyOrder(v, w)
    decreases v
  {
    if v.Arr? && w.Arr? {
      forall i | 0 <= i < |v.items| && i < |w.items|
        ensures Visible(v.items[i]) == Visible(w.items[i]) <==> SameUpToKeyOrder(v.items[i], w.items[i])
      {
        ShowAlikeIff(v.items[i], w.items[i]);
      }
      ArraysShowAlikeIff(v.items, w.items);
    } else if v.Obj? && w.Obj? {
      forall i, j | 0 <= i < |v.members| && 0 <= j < |w.members| && v.members[i].key == w.members[j].key
        ensures Visible(v.members[i].value) == Visible(w.members[j].value) <==> SameUpToKeyOrder(v.members[i].value, w.members[j].value)
      {
        ShowAlikeIff(v.members[i].value, w.members[j].value);
      }
      if Visible(v) == Visible(w) {
        SameShownMembersSame(v.members, w.members);
      }
      if SameUpToKeyOrder(v, w) {
        SameMembersShowSame(v.members, w.members);
      }
    }
  }

  /** Without null and undefined, the canonical text determines the value up to key order. */
  lemma InjectiveUpToKeyOrder(v: Json, w: Json)
    requires WellFormed(v) && WellFormed(w) && NullFree(v) && NullFree(w)
    ensures Stringify(v) == Stringify(w) <==> SameUpToKeyOrder(v, w)
  {
    SameTextIffSameVisible(v, w);
    ShowAlikeIff(v, w);
  }

  /** With null it does not: a list of one null prints like the empty list. */
  lemma OneNullPrintsAsEmpty()
    ensures Stringify(Arr([Null])) == Stringify(Arr([])) && !SameUpToKeyOrder(Arr([Null]), Arr([]))
  {
    assert VisibleItems([Null]) == [DNull] && VisibleItems([]) == [];
    SameTextIffSameVisible(Arr([Null]), Arr([]));
  }

  // ----- the JSON column -----

  /** What JSON.stringify writes and the column gives back: undefined members are gone. */
  function Column(v: Json): Json
    decreases v, 0
  {
    match v
    case Arr(items) => Arr(ColumnItems(items))
    case Obj(ms) => Obj(ColumnMembers(ms))
    case _ => v
  }

  function ColumnItems(items: seq<Json>): (r: seq<Json>)
    ensures |r| == |items|
    ensures forall i | 0 <= i < |items| :: r[i] == if items[i].Undefined? then Null else Column(items[i])
    decreases items, 1
  {
    seq(|items|, i requires 0 <= i < |items| => if items[i].Undefined? then Null else Column(items[i]))
  }

  function ColumnMembers(ms: seq<Member>): seq<Member>
    decreases ms, 1
  {
    if ms == [] then []
    else if ms[0].value.Undefined? then ColumnMembers(ms[1..])
    else [Member(ms[0].key, Column(ms[0].value))] + ColumnMembers(ms[1..])
  }

  /** y is what the column keeps of a defined member. */
  predicate FromDefined(y: Member, ms: seq<Member>) {
    exists i | 0 <= i < |ms| :: !ms[i].value.Undefined? && y == Member(ms[i].key, Column(ms[i].value))
  }

  lemma {:induction false} ColumnMembersFrom(ms: seq<Member>)
    ensures forall k | 0 <= k < |ColumnMembers(ms)| :: FromDefined(ColumnMembers(ms)[k], ms)
  {
    if ms != [] {
      ColumnMembersFrom(ms[1..]);
      var rest := ColumnMembers(ms[1..]);
      forall k | 0 <= k < |rest| ensures FromDefined(rest[k], ms) {
        assert FromDefined(rest[k], ms[1..]);
        var i :| 0 <= i < |ms[1..]| && !ms[1..][i].value.Undefined? && rest[k] == Member(ms[1..][i].key, Column(ms[1..][i].value));
        assert ms[i + 1] == ms[1..][i];
      }
    }
  }

  lemma {:induction false} ColumnMembersKept(ms: seq<Member>, i: nat)
    requires i < |ms| && !ms[i].value.Undefined?
    ensures Member(ms[i].key, Column(ms[i].value)) in ColumnMembers(ms)
  {
    if i > 0 {
      ColumnMembersKept(ms[1..], i - 1);
    }
  }

  lemma {:induction false} ColumnMembersDistinct(ms: seq<Member>)
    requires DistinctKeys(ms)
    ensures DistinctKeys(ColumnMembers(ms))
  {
    if ms != [] {
      ColumnMembersDistinct(ms[1..]);
      ColumnMembersFrom(ms[1..]);
      var rest := ColumnMembers(ms[1..]);
      forall k | 0 <= k < |rest| ensures rest[k].key != ms[0].key {
        assert FromDefined(rest[k], ms[1..]);
      }
    }
  }

  /** No object inside v has a member that is undefined. */
  predicate NoUndefinedMember(v: Json) {
    match v
    case Arr(items) => forall i | 0 <= i < |items| :: NoUndefinedMember(items[i])
    case Obj(ms) => forall i | 0 <= i < |ms| :: !ms[i].value.Undefined? && NoUndefinedMember(ms[i].value)
    case _ => true
  }

  lemma {:induction false} ColumnWellFormed(v: Json)
    requires WellFormed(v)
    ensures WellFormed(Column(v))
  {
    match v
    case Arr(items) =>
      forall i | 0 <= i < |items| ensures WellFormed(ColumnItems(items)[i]) { ColumnWellFormed(items[i]); }
    case Obj(ms) =>
      var r := ColumnMembers(ms);
      ColumnMembersDistinct(ms);
      ColumnMembersFrom(ms);
      forall i | 0 <= i < |ms| ensures WellFormed(Column(ms[i].value)) { ColumnWellFormed(ms[i].value); }
      forall k | 0 <= k < |r| ensures WellFormed(r[k].value) {
        assert FromDefined(r[k], ms);
      }
    case _ =>
  }

  lemma ArrayColumnShowsIff(items: seq<Json>)
    requires WellFormed(Arr(items)) && WellFormed(Column(Arr(items)))
    requires forall i | 0 <= i < |items| ::
               WellFormed(Column(items[i])) && (Visible(Column(items[i])) == Visible(items[i]) <==> NoUndefinedMember(items[i]))
    ensures Visible(Column(Arr(items))) == Visible(Arr(items)) <==> NoUndefinedMember(Arr(items))
  {
    var r := ColumnItems(items);
    var d, e := VisibleItems(items), VisibleItems(r);
    forall i | 0 <= i < |items|
      ensures e[i] == d[i] <==> NoUndefinedMember(items[i])
      ensures e[i] == DNull <==> d[i] == DNull
    {
      FirstCharacter(items[i]);
      FirstCharacter(r[i]);
    }
    if NoUndefinedMember(Arr(items)) {
      assert d == e;
    } else {
      var i :| 0 <= i < |items| && !NoUndefinedMember(items[i]);
      assert d[i] != e[i];
      assert d[i] != DNull && e[i] != DNull;
      assert d != [DNull] && e != [DNull];
    }
  }

  /** The column shows the defined members, and no others. */
  lemma ColumnKey(ms: seq<Member>, i: nat)
    requires WellFormed(Obj(ms)) && WellFormed(Column(Obj(ms))) && i < |ms| && WellFormed(Column(ms[i].value))
    ensures ms[i].key in VisibleMembers(ColumnMembers(ms)) <==> !ms[i].value.Undefined?
    ensures !ms[i].value.Undefined? ==> VisibleMembers(ColumnMembers(ms))[ms[i].key] == Visible(Column(ms[i].value))
  {
    var r := ColumnMembers(ms);
    if !ms[i].value.Undefined? {
      ColumnMembersKept(ms, i);
      var a :| 0 <= a < |r| && r[a] == Member(ms[i].key, Column(ms[i].value));
      assert VisibleMembers(r)[r[a].key] == Visible(r[a].value);
    } else {
      ColumnMembersFrom(ms);
      forall a | 0 <= a < |r| ensures r[a].key != ms[i].key {
        assert FromDefined(r[a], ms);
      }
    }
  }

  lemma ColumnKeyFrom(ms: seq<Member>, k: string)
    requires WellFormed(Obj(ms)) && WellFormed(Column(Obj(ms))) && k in VisibleMembers(ColumnMembers(ms))
    ensures exists i | 0 <= i < |ms| :: ms[i].key == k
  {
    var r := ColumnMembers(ms);
    ColumnMembersFrom(ms);
    var a :| 0 <= a < |r| && r[a].key == k;
    assert FromDefined(r[a], ms);
  }

  lemma DefinedColumnShowsSame(ms: seq<Member>)
    requires WellFormed(Obj(ms)) && WellFormed(Column(Obj(ms)))
    requires forall i | 0 <= i < |ms| ::
               !ms[i].value.Undefined? && WellFormed(Column(ms[i].value)) && Visible(Column(ms[i].value)) == Visible(ms[i].value)
    ensures VisibleMembers(ColumnMembers(ms)) == VisibleMembers(ms)
  {
    var m, c := VisibleMembers(ms), VisibleMembers(ColumnMembers(ms));
    forall k | k in m
      ensures k in c && c[k] == m[k]
    {
      var i :| 0 <= i < |ms| && ms[i].key == k;
      ColumnKey(ms, i);
      assert m[ms[i].key] == Visible(ms[i].value);
    }
    forall k | k in c
      ensures k in m
    {
      ColumnKeyFrom(ms, k);
      var i :| 0 <= i < |ms| && ms[i].key == k;
      assert ms[i].key in m;
    }
    SameKeysAndValues(m, c);
  }

  lemma ObjectColumnShowsIff(ms: seq<Member>)
    requires WellFormed(Obj(ms)) && WellFormed(Column(Obj(ms)))
    requires forall i | 0 <= i < |ms| ::
               && WellFormed(Column(ms[i].value))
               && (Visible(Column(ms[i].value)) == Visible(ms[i].value) <==> NoUndefinedMember(ms[i].value))
    ensures Visible(Column(Obj(ms))) == Visible(Obj(ms)) <==> NoUndefinedMember(Obj(ms))
  {
    if NoUndefinedMember(Obj(ms)) {
      DefinedColumnShowsSame(ms);
    } else {
      var i :| 0 <= i < |ms| && (ms[i].value.Undefined? || !NoUndefinedMember(ms[i].value));
      ColumnKey(ms, i);
      assert VisibleMembers(ms)[ms[i].key] == Visible(ms[i].value);
    }
  }

  lemma {:induction false} ColumnShowsSameIff(v: Json)
    requires WellFormed(v)
    ensures WellFormed(Column(v))
    ensures Visible(Column(v)) == Visible(v) <==> NoUndefinedMember(v)
  {
    ColumnWellFormed(v);
    match v
    case Arr(items) =>
      forall i | 0 <= i < |items|
        ensures WellFormed(Column(items[i])) && (Visible(Column(items[i])) == Visible(items[i]) <==> NoUndefinedMember(items[i]))
      {
        ColumnShowsSameIff(items[i]);
      }
      ArrayColumnShowsIff(items);
    case Obj(ms) =>
      forall i | 0 <= i < |ms|
        ensures WellFormed(Column(ms[i].value)) && (Visible(Column(ms[i].value)) == Visible(ms[i].value) <==> NoUndefinedMember(ms[i].value))
      {
        ColumnShowsSameIff(ms[i].value);
      }
      ObjectColumnShowsIff(ms);
    case _ =>
  }

  /**
   Metadata written to the JSON column and read back, in whatever key order, has the text that
   was hashed, if and only if no object in it had an undefined member.
   */
  lemma ColumnRoundTripIff(v: Json, back: Json)
    requires WellFormed(v) && WellFormed(back) && WellFormed(Column(v)) && Visible(back) == Visible(Column(v))
    ensures Stringify(back) == Stringify(v) <==> NoUndefinedMember(v)
  {
    ColumnShowsSameIff(v);
    SameTextIffSameVisible(back, v);
  }
}

/** server/db.ts: linking unclaimed rows to a user whose e-mail address they carry. */
module AccountClaim {
  import opened Wrappers
  import opened Text
  import opened Email

  /** A signature request or internal approval, as far as claiming sees it. */
  datatype Row = Row(email: string, owner: Option<int>)

  /** The unclaimed rows whose address satisfies p. */
  function Unclaimed(rows: seq<Row>, p: string -> bool): set<nat> {
    set i | 0 <= i < |rows| && rows[i].owner.None? && p(rows[i].email)
  }

  /** What claiming is for: the rows carrying the address itself or another spelling of it. */
  function Claimable(rows: seq<Row>, email: string): set<nat> {
    Unclaimed(rows, SpellingOf(email))
  }

  function SpellingOf(email: string): string -> bool { e => SqlEq(e, email) || EmailsMatch(e, email) }

  function ExactlyAs(email: string): string -> bool { e => SqlEq(e, email) }

  function AliasOf(email: string): string -> bool { e => AliasCandidate(e, email) }

  /** UPDATE ... SET owner = userId WHERE id IN ids AND owner IS NULL */
  function Assign(rows: seq<Row>, ids: set<nat>, userId: int): (r: seq<Row>)
    ensures |r| == |rows|
    ensures forall i | 0 <= i < |rows| ::
      r[i] == if i in ids && rows[i].owner.None? then rows[i].(owner := Some(userId)) else rows[i]
  {
    seq(|rows|, i requires 0 <= i < |rows| =>
      if i in ids && rows[i].owner.None? then rows[i].(owner := Some(userId)) else rows[i])
  }

  function ExactMatches(rows: seq<Row>, email: string): set<nat> {
    Unclaimed(rows, ExactlyAs(email))
  }

  /** A candidate of the second phase: same domain, not an exact match, same mailbox. */
  predicate AliasCandidate(e: string, email: string) {
    && IndexOf(email, '@') > 0
    && SqlEq(AfterLastAt(e), Lower(email[IndexOf(email, '@') + 1..]))
    && !SqlEq(e, email)
    && EmailsMatch(e, email)
  }

  function AliasRows(rows: seq<Row>, email: string): set<nat> {
    Unclaimed(rows, AliasOf(email))
  }

  predicate NoSpaces(rows: seq<Row>) { forall i | 0 <= i < |rows| :: NoSpace(rows[i].email) }

  predicate AtMostOneAt(email: string) { IndexOf(email, '@') == LastIndexOf(email, '@') }

  /** Exactly the unowned rows with this address, up to case, or another spelling of it, have become the user's. */
  predicate Claimed(before: seq<Row>, after: seq<Row>, email: string, userId: int) {
    && |after| == |before|
    && forall i | 0 <= i < |before| ::
         && after[i].email == before[i].email
         && after[i].owner == (if before[i].owner.None? && (Lower(before[i].email) == Lower(email) || EmailsMatch(before[i].email, email))
                               then Some(userId) else before[i].owner)
  }

  lemma ClaimableAreClaimed(rows: seq<Row>, email: string, userId: int)
    ensures Claimed(rows, Assign(rows, Claimable(rows, email), userId), email, userId)
  {
    hide EmailsMatch, Lower;
  }

  class ClaimTable {
    var rows: seq<Row>

    constructor (rows: seq<Row>)
      ensures this.rows == rows
    {
      this.rows := rows;
    }

    /** claimSignatureRequestsByEmail and claimInternalApprovalsByEmail */
    method ClaimByEmail(email: string, userId: int) returns (claimed: nat)
      modifies this
      ensures rows == Assign(old(rows), ExactMatches(old(rows), email) + AliasRows(old(rows), email), userId)
      ensures NoSpace(email) && NoSpaces(old(rows)) && AtMostOneAt(email) ==>
                rows == Assign(old(rows), Claimable(old(rows), email), userId)
      ensures NoSpace(email) && NoSpaces(old(rows)) && AtMostOneAt(email) ==> Claimed(old(rows), rows, email, userId)
      ensures claimed == |set i | 0 <= i < |rows| && rows[i] != old(rows)[i]|
    {
      ghost var before := rows;
      if NoSpace(email) && NoSpaces(rows) && AtMostOneAt(email) {
        TwoPhasesReachAll(rows, email);
        ClaimableAreClaimed(rows, email, userId);
      }
      hide AliasOf, AliasRows, ExactMatches, Claimable, Claimed;
      var exact := ExactMatches(rows, email);
      rows := Assign(rows, exact, userId);
      claimed := |exact|;
      var alias := if IndexOf(email, '@') > 0 then AliasRows(rows, email) else {};
      PhasesAreSeparate(before, email, userId);
      if alias != {} {
        rows := Assign(rows, alias, userId);
        claimed := claimed + |alias|;
      }
    }
  }

  /** The rows of the second phase are untouched by the first, so the counts add up. */
  lemma PhasesAreSeparate(rows: seq<Row>, email: string, userId: int)
    ensures var exact, alias := ExactMatches(rows, email), AliasRows(rows, email);
            var after := Assign(rows, exact, userId);
            && AliasRows(after, email) == alias
            && Assign(after, alias, userId) == Assign(rows, exact + alias, userId)
            && Assign(after, {}, userId) == after
            && |exact| + |alias| == |set i | 0 <= i < |rows| && Assign(rows, exact + alias, userId)[i] != rows[i]|
    ensures IndexOf(email, '@') <= 0 ==> AliasRows(rows, email) == {}
  {
    SeparateFilters(rows, ExactlyAs(email), AliasOf(email), userId);
  }

  lemma AssignTwice(rows: seq<Row>, ps: set<nat>, qs: set<nat>, userId: int)
    ensures Assign(Assign(rows, ps, userId), qs, userId) == Assign(rows, ps + qs, userId)
    ensures Assign(rows, {}, userId) == rows
  {
  }

  lemma OthersStayUnclaimed(rows: seq<Row>, p: string -> bool, q: string -> bool, userId: int)
    requires forall e :: !(p(e) && q(e))
    ensures Unclaimed(Assign(rows, Unclaimed(rows, p), userId), q) == Unclaimed(rows, q)
    ensures Unclaimed(rows, p) !! Unclaimed(rows, q)
  {
  }

  lemma SeparateFilters(rows: seq<Row>, p: string -> bool, q: string -> bool, userId: int)
    requires forall e :: !(p(e) && q(e))
    ensures var ps, qs := Unclaimed(rows, p), Unclaimed(rows, q);
            var after := Assign(rows, ps, userId);
            && Unclaimed(after, q) == qs
            && Assign(after, qs, userId) == Assign(rows, ps + qs, userId)
            && Assign(after, {}, userId) == after
            && |ps| + |qs| == |set i | 0 <= i < |rows| && Assign(rows, ps + qs, userId)[i] != rows[i]|
  {
    var ps, qs := Unclaimed(rows, p), Unclaimed(rows, q);
    OthersStayUnclaimed(rows, p, q, userId);
    AssignTwice(rows, ps, qs, userId);
    AssignTwice(Assign(rows, ps, userId), {}, {}, userId);
    assert |ps + qs| == |ps| + |qs|;
    ChangedRows(rows, ps + qs, userId);
  }

  /** Exactly the assigned rows change. */
  lemma ChangedRows(rows: seq<Row>, ids: set<nat>, userId: int)
    requires forall i | i in ids :: i < |rows| && rows[i].owner.None?
    ensures (set i | 0 <= i < |rows| && Assign(rows, ids, userId)[i] != rows[i]) == ids
  {
    var after := Assign(rows, ids, userId);
    forall i | i in ids
      ensures after[i] != rows[i]
    {
      assert after[i].owner == Some(userId);
    }
  }

  /** On addresses with one "@" the two phases reach exactly the rows a direct scan would. */
  lemma TwoPhasesReachAll(rows: seq<Row>, email: string)
    requires NoSpace(email) && NoSpaces(rows)
    requires AtMostOneAt(email)
    ensures ExactMatches(rows, email) + AliasRows(rows, email) == Claimable(rows, email)
  {
    forall i | i in Claimable(rows, email) && i !in ExactMatches(rows, email)
      ensures i in AliasRows(rows, email)
    {
      MatchIsCandidate(rows[i].email, email);
    }
  }

  lemma MatchIsCandidate(e: string, email: string)
    requires NoSpace(email) && NoSpace(e)
    requires AtMostOneAt(email)
    requires EmailsMatch(e, email) && !SqlEq(e, email)
    ensures AliasCandidate(e, email)
  {
    assert LastIndexOf(email, '@') > 0 by {
      EmailsMatchIff(e, email);
      LowerKeepsAt(email);
    }
    assert SqlEq(AfterLastAt(e), AfterLastAt(email)) by { MatchMeansSameDomain(e, email); }
    LowerTwice(AfterLastAt(email));
  }

  /**
   The domain prefilter is lossless for every table exactly when the address has at most one
   "@" or matches no address at all: with two, the text after the first "@" is no domain.
   */
  lemma PrefilterLosslessIff(email: string)
    requires NoSpace(email)
    ensures (forall rows: seq<Row> | NoSpaces(rows) :: ExactMatches(rows, email) + AliasRows(rows, email) == Claimable(rows, email))
       <==> (AtMostOneAt(email) || NormalizeEmail(email).None?)
  {
    if AtMostOneAt(email) || NormalizeEmail(email).None? {
      forall rows: seq<Row> | NoSpaces(rows)
        ensures ExactMatches(rows, email) + AliasRows(rows, email) == Claimable(rows, email)
      {
        if AtMostOneAt(email) {
          TwoPhasesReachAll(rows, email);
        } else {
          UnmatchableReachesAll(rows, email);
        }
      }
    } else {
      TwoAtsLoseAnAlias(email);
      LoneAliasIsLost(EmptyAlias(email), email);
    }
  }

  /** For instance, "a@b@c" is an address as far as normalizing goes. */
  lemma TwoAtsLoseRows()
    ensures var email := "a@b@c";
            exists rows: seq<Row> :: NoSpaces(rows) && ExactMatches(rows, email) + AliasRows(rows, email) != Claimable(rows, email)
  {
    var email := "a@b@c";
    IndexOfAt(email, 1);
    LastIndexOfAt(email, 3);
    LowerKeepsAt(email);
    NormalizeWithoutSpace(email);
    NormalForm(Lower(email));
    assert Lower(email)[4..] == "c" && Lower(email)[..3] == "a@b";
    PrefilterLosslessIff(email);
  }

  lemma UnmatchableReachesAll(rows: seq<Row>, email: string)
    requires NormalizeEmail(email).None?
    ensures ExactMatches(rows, email) + AliasRows(rows, email) == Claimable(rows, email)
  {
  }

  lemma LoneAliasIsLost(e: string, email: string)
    requires NoSpace(e) && SpellingOf(email)(e) && !ExactlyAs(email)(e) && !AliasOf(email)(e)
    ensures exists rows: seq<Row> :: NoSpaces(rows) && ExactMatches(rows, email) + AliasRows(rows, email) != Claimable(rows, email)
  {
    LoneRow(e, SpellingOf(email), ExactlyAs(email), AliasOf(email));
    assert NoSpaces([Row(e, None)]);
  }

  lemma LoneRow(e: string, spelling: string -> bool, exact: string -> bool, alias: string -> bool)
    requires spelling(e) && !exact(e) && !alias(e)
    ensures Unclaimed([Row(e, None)], exact) + Unclaimed([Row(e, None)], alias) != Unclaimed([Row(e, None)], spelling)
  {
    assert 0 in Unclaimed([Row(e, None)], spelling);
  }

  /** With two "@" the prefilter drops a row that matches, because the domains it compares differ. */
  lemma TwoAtsLoseAnAlias(email: string)
    requires NoSpace(email) && !AtMostOneAt(email) && NormalizeEmail(email).Some?
    ensures LastIndexOf(email, '@') >= 0
    ensures var alias := EmptyAlias(email);
            && NoSpace(alias) && EmailsMatch(alias, email) && !SqlEq(alias, email)
            && !SqlEq(AfterLastAt(alias), Lower(email[IndexOf(email, '@') + 1..]))
  {
    NormalizableHasAt(email);
    AliasMatches(email, "");
    EmptyAliasChars(email);
    AfterFirstAtDiffers(email);
    assert |EmptyAlias(email)| == |email| + 1;
    assert |Lower(EmptyAlias(email))| != |Lower(email)|;
  }

  lemma AfterFirstAtDiffers(email: string)
    requires !AtMostOneAt(email)
    ensures !SqlEq(AfterLastAt(email), Lower(email[IndexOf(email, '@') + 1..]))
  {
    var first, at := IndexOf(email, '@'), LastIndexOf(email, '@');
    var tail := email[first + 1..];
    assert |AfterLastAt(email)| == |email| - at - 1 && |tail| == |email| - first - 1;
    assert |Lower(Lower(tail))| != |Lower(AfterLastAt(email))|;
  }

  /** A second run finds nothing left to claim, and rows owned by anyone never change. */
  lemma SecondClaimFindsNothing(rows: seq<Row>, email: string, userId: int, again: int)
    requires NoSpace(email) && NoSpaces(rows) && AtMostOneAt(email)
    ensures var after := Assign(rows, Claimable(rows, email), userId);
            && Claimable(after, email) == {}
            && Assign(after, Claimable(after, email), again) == after
            && forall i | 0 <= i < |rows| :: (rows[i].owner.Some? ==> after[i] == rows[i]) && after[i].email == rows[i].email
  {
    var after := Assign(rows, Claimable(rows, email), userId);
    forall i | 0 <= i < |after|
      ensures i !in Claimable(after, email)
    {
      assert rows[i].owner.None? && (SqlEq(rows[i].email, email) || EmailsMatch(rows[i].email, email)) ==> i in Claimable(rows, email);
    }
  }
}
